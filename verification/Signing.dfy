/** Message signatures (internal/smb/crypto.go) and the assembly of compound responses
    (internal/smb/server.go): NextCommand chaining, 8-byte alignment, and one signature per PDU.
  */
module Signing {
  import opened Bytes

  const HEADER: nat := 64

  /** A signature: the first 16 bytes of a message authentication code. */
  type Sig = s: bytes | |s| == 16 witness Zeros(16)

  /** A signing key with both codes it may be used in; the dialect picks AES-CMAC for SMB 3.0 and
      3.0.2 and HMAC-SHA256 otherwise. */
  datatype Signer = Signer(dialect: u16, cmac: bytes -> Sig, hmac: bytes -> Sig) {
    function Mac(m: bytes): Sig {
      if dialect == 0x0300 || dialect == 0x0302 then cmac(m) else hmac(m)
    }
  }

  /** Sets SMB2_FLAGS_SIGNED (bit 3). */
  function SetSigned(flags: u32): u32 {
    if flags / 8 % 2 == 1 then flags else flags + 8
  }

  function Flags(m: bytes): u32
    requires |m| >= HEADER
  {
    U32At(m, 16)
  }

  function NextCommand(m: bytes): u32
    requires |m| >= HEADER
  {
    U32At(m, 20)
  }

  /** The message with its signature field zeroed. */
  function Blank(m: bytes): (r: bytes)
    requires |m| >= HEADER
    ensures |r| == |m|
  {
    Put(m, 48, Zeros(16))
  }

  function Flagged(m: bytes): (r: bytes)
    requires |m| >= HEADER
    ensures |r| == |m|
  {
    Put(m, 16, Le(SetSigned(Flags(m)), 4))
  }

  /** The message as signed: flag set, and the code of the rest in the signature field. */
  function Signed(s: Signer, m: bytes): (r: bytes)
    requires |m| >= HEADER
    ensures |r| == |m|
  {
    var z := Flagged(Blank(m));
    Put(z, 48, s.Mac(z))
  }

  predicate Verifies(s: Signer, m: bytes) {
    |m| >= HEADER && Field(m, 48, 16) == s.Mac(Blank(m))
  }

  // ----- laws of signing -----

  lemma BlankOfSigned(s: Signer, m: bytes)
    requires |m| >= HEADER
    ensures Blank(Signed(s, m)) == Flagged(Blank(m))
  {
    var z := Flagged(Blank(m));
    assert forall i :: 48 <= i < 64 ==> z[i] == 0;
  }

  /** What the server signs, a client holding the key accepts. */
  lemma SignedVerifies(s: Signer, m: bytes)
    requires |m| >= HEADER
    ensures Verifies(s, Signed(s, m))
  {
    BlankOfSigned(s, m);
    FieldOfPut(Flagged(Blank(m)), 48, s.Mac(Flagged(Blank(m))));
  }

  lemma FlagsOfFlagged(m: bytes)
    requires |m| >= HEADER
    ensures Flags(Flagged(m)) == SetSigned(Flags(m))
  {
    FieldOfPut(m, 16, Le(SetSigned(Flags(m)), 4));
    Le32(SetSigned(Flags(m)));
  }

  lemma FlaggedTwice(m: bytes)
    requires |m| >= HEADER
    ensures Flagged(Flagged(m)) == Flagged(m)
  {
    FlagsOfFlagged(m);
    assert SetSigned(SetSigned(Flags(m))) == SetSigned(Flags(m));
  }

  /** Signing is idempotent. */
  lemma SigningTwice(s: Signer, m: bytes)
    requires |m| >= HEADER
    ensures Signed(s, Signed(s, m)) == Signed(s, m)
  {
    BlankOfSigned(s, m);
    FlaggedTwice(Blank(m));
    var z := Flagged(Blank(m));
    assert Put(z, 48, s.Mac(z)) == Signed(s, m);
  }

  /** Signing sets bit 3 of the flags and fills in the signature, and touches nothing else. */
  lemma SignedFields(s: Signer, m: bytes)
    requires |m| >= HEADER
    ensures U32At(Signed(s, m), 16) == if U32At(m, 16) / 8 % 2 == 1 then U32At(m, 16) else U32At(m, 16) + 8
    ensures U32At(Signed(s, m), 20) == U32At(m, 20)
    ensures forall i :: 0 <= i < |m| && !(16 <= i < 20) && !(48 <= i < 64) ==> Signed(s, m)[i] == m[i]
  {
    var b := Blank(m);
    var z := Flagged(b);
    FieldBesidePut(m, 48, Zeros(16), 16, 4);
    FlagsOfFlagged(b);
    FieldBesidePut(z, 48, s.Mac(z), 16, 4);
    FieldBesidePut(m, 48, Zeros(16), 20, 4);
    FieldBesidePut(b, 16, Le(SetSigned(Flags(b)), 4), 20, 4);
    FieldBesidePut(z, 48, s.Mac(z), 20, 4);
  }

  /** The bytes a signature covers: all of them, with the signature's own as zeros. */
  function Covered(m: bytes): (r: bytes)
    requires |m| >= HEADER
  {
    m[..48] + [0, 0, 0, 0, 0, 0, 0, 0, 0, 0, 0, 0, 0, 0, 0, 0] + m[64..]
  }

  lemma BlankIsCovered(m: bytes)
    requires |m| >= HEADER
    ensures Blank(m) == Covered(m)
  {
  }

  /** Which code a signature is: AES-CMAC for SMB 3.0 and 3.0.2, HMAC-SHA256 for all others. */
  lemma VerifiesExactly(s: Signer, m: bytes)
    ensures Verifies(s, m) <==>
      && |m| >= 64
      && m[48..64] == if s.dialect in [0x0300, 0x0302] then s.cmac(Covered(m)) else s.hmac(Covered(m))
  {
    if |m| >= 64 { BlankIsCovered(m); }
  }

  // ----- in place, on a span of a longer message -----

  /** a[off..off + |f|] := f */
  method Store(a: array<byte>, off: nat, f: bytes)
    requires off + |f| <= a.Length
    modifies a
    ensures a[..] == Put(old(a[..]), off, f)
  {
    forall i | 0 <= i < |f| { a[off + i] := f[i]; }
  }

  /** m with the span from start replaced. */
  function Splice(m: bytes, start: nat, f: bytes): (r: bytes)
    requires start + |f| <= |m|
    ensures |r| == |m|
  {
    m[..start] + f + m[start + |f|..]
  }

  lemma PutInSpan(m: bytes, start: nat, end: nat, off: nat, f: bytes)
    requires start + off + |f| <= end <= |m|
    ensures Put(m, start + off, f) == Splice(m, start, Put(m[start..end], off, f))
    ensures Put(m, start + off, f)[start..end] == Put(m[start..end], off, f)
  {
  }

  lemma SpliceTwice(m: bytes, start: nat, f: bytes, g: bytes)
    requires start + |f| <= |m| && |f| == |g|
    ensures Splice(Splice(m, start, f), start, g) == Splice(m, start, g)
    ensures Splice(m, start, f)[start..start + |f|] == f
  {
  }

  lemma SpliceSame(m: bytes, start: nat, end: nat)
    requires start <= end <= |m|
    ensures Splice(m, start, m[start..end]) == m
  {
  }

  /** Store inside a span, seen as a change of the span alone. */
  method StoreInSpan(a: array<byte>, start: nat, end: nat, off: nat, f: bytes)
    requires start + off + |f| <= end <= a.Length
    modifies a
    ensures a[..] == Splice(old(a[..]), start, Put(old(a[start..end]), off, f))
    ensures a[start..end] == Put(old(a[start..end]), off, f)
  {
    PutInSpan(a[..], start, end, off, f);
    assert a[..][start..end] == a[start..end];
    Store(a, start + off, f);
    assert a[..][start..end] == a[start..end];
  }

  /** signMessage on the span [start, end). */
  method SignMessage(s: Signer, a: array<byte>, start: nat, end: nat)
    requires start + HEADER <= end <= a.Length
    modifies a
    ensures a[..] == Splice(old(a[..]), start, Signed(s, old(a[start..end])))
  {
    ghost var whole, span := a[..], a[start..end];
    StoreInSpan(a, start, end, 48, Zeros(16));
    ghost var blank := a[start..end];
    StoreInSpan(a, start, end, 16, Le(SetSigned(Flags(a[start..end])), 4));
    ghost var flagged := a[start..end];
    StoreInSpan(a, start, end, 48, s.Mac(a[start..end]));
    SpliceTwice(whole, start, blank, flagged);
    SpliceTwice(whole, start, flagged, Signed(s, span));
  }

  /** verifyMessage on the span [start, end): zeroes the field, computes, restores. The message is as
      it was afterwards, whatever the verdict. */
  method VerifyMessage(s: Signer, a: array<byte>, start: nat, end: nat) returns (ok: bool)
    requires start <= end <= a.Length
    modifies a
    ensures a[..] == old(a[..])
    ensures ok == Verifies(s, old(a[start..end]))
  {
    if end - start < HEADER { return false; }
    ghost var whole, span := a[..], a[start..end];
    var received := Field(a[start..end], 48, 16);
    StoreInSpan(a, start, end, 48, Zeros(16));
    ghost var blank := a[start..end];
    var sig := s.Mac(a[start..end]);
    StoreInSpan(a, start, end, 48, received);
    assert Put(Blank(span), 48, received) == span;
    SpliceTwice(whole, start, blank, span);
    SpliceSame(whole, start, end);
    ok := received == sig;
  }

  // ----- compound responses -----

  type Pdu = p: bytes | HEADER <= |p| <= 0xFFFF_FFF8 witness Zeros(64)

  /** The zero bytes that bring a PDU to a multiple of 8. */
  function PadTo8(len: nat): (n: nat)
    ensures n < 8 && (len + n) % 8 == 0
  {
    (8 - len % 8) % 8
  }

  /** A PDU that is followed by another: padded, and its NextCommand telling how far the next one is. */
  function Linked(p: Pdu): (r: Pdu)
    ensures |r| == |p| + PadTo8(|p|)
  {
    var q := p + Zeros(PadTo8(|p|));
    Put(q, 20, Le(|q|, 4))
  }

  function Link(pdus: seq<Pdu>): (spans: seq<Pdu>)
    ensures |spans| == |pdus|
  {
    seq(|pdus|, i requires 0 <= i < |pdus| => if i < |pdus| - 1 then Linked(pdus[i]) else pdus[i])
  }

  function SignIf(s: Option<Signer>, p: Pdu): (r: Pdu)
    ensures |r| == |p|
  {
    if s.Some? then Signed(s.value, p) else p
  }

  function SignAll(s: Option<Signer>, spans: seq<Pdu>): (r: seq<Pdu>)
    ensures |r| == |spans|
  {
    seq(|spans|, i requires 0 <= i < |spans| => SignIf(s, spans[i]))
  }

  function Concat(spans: seq<Pdu>): bytes {
    if spans == [] then [] else Concat(spans[..|spans| - 1]) + spans[|spans| - 1]
  }

  /** The response to a list of PDUs, or None when there is nothing to send. */
  function Response(s: Option<Signer>, pdus: seq<Pdu>): Option<bytes> {
    if pdus == [] then None else Some(Concat(SignAll(s, Link(pdus))))
  }

  lemma {:induction false} ConcatAppend(a: seq<Pdu>, b: seq<Pdu>)
    ensures Concat(a + b) == Concat(a) + Concat(b)
  {
    if b == [] {
      assert a + b == a;
    } else {
      var n := |b| - 1;
      ConcatAppend(a, b[..n]);
      assert (a + b)[..|a + b| - 1] == a + b[..n];
      Assoc(Concat(a), Concat(b[..n]), b[n]);
    }
  }

  lemma ConcatSnoc(a: seq<Pdu>, p: Pdu)
    ensures Concat(a + [p]) == Concat(a) + p
  {
    assert (a + [p])[..|a + [p]| - 1] == a;
  }

  datatype Span = Span(start: nat, end: nat)

  /** Where the spans lie in the concatenation. */
  ghost predicate Marks(spans: seq<Pdu>, marks: seq<Span>) {
    |marks| == |spans| && forall i :: 0 <= i < |spans| ==> MarkAt(spans, marks[i], i)
  }

  ghost predicate MarkAt(spans: seq<Pdu>, mark: Span, i: nat)
    requires i < |spans|
  {
    mark.start == |Concat(spans[..i])| && mark.end == mark.start + |spans[i]|
  }

  /** assembleResponse: one buffer, a NextCommand in all PDUs but the last, each PDU signed on its own. */
  method AssembleResponse(s: Option<Signer>, pdus: seq<Pdu>) returns (out: Option<bytes>)
    ensures out == Response(s, pdus) && (out == None <==> pdus == [])
  {
    if |pdus| == 0 { return None; }
    var buf, marks := Chain(pdus);
    if s.Some? { SignSpans(s.value, buf, marks, Link(pdus)); }
    assert s == None ==> SignAll(s, Link(pdus)) == Link(pdus);
    return Some(buf[..]);
  }

  /** The first loop: append, pad, set NextCommand, remember the span. */
  method Chain(pdus: seq<Pdu>) returns (buf: array<byte>, marks: seq<Span>)
    requires pdus != []
    ensures fresh(buf) && buf[..] == Concat(Link(pdus)) && Marks(Link(pdus), marks)
  {
    var out: bytes := [];
    marks := [];
    ghost var spans := Link(pdus);
    for i := 0 to |pdus|
      invariant out == Concat(spans[..i]) && (i < |pdus| ==> |out| % 8 == 0)
      invariant |marks| == i && forall k :: 0 <= k < i ==> MarkAt(spans, marks[k], k)
    {
      var start := |out|;
      ConcatUpTo(spans, i);
      if i < |pdus| - 1 {
        out := AppendLinked(out, pdus[i]);
      } else {
        out := out + pdus[i];
      }
      marks := marks + [Span(start, |out|)];
    }
    assert spans[..|pdus|] == spans;
    buf := new byte[|out|](i requires 0 <= i < |out| => out[i]);
    assert buf[..] == out;
  }

  lemma ConcatUpTo(spans: seq<Pdu>, i: nat)
    requires i < |spans|
    ensures Concat(spans[..i + 1]) == Concat(spans[..i]) + spans[i]
  {
    assert spans[..i + 1] == spans[..i] + [spans[i]];
    ConcatSnoc(spans[..i], spans[i]);
  }

  /** Appends a PDU, zeros up to the next multiple of 8, and its NextCommand. */
  method AppendLinked(before: bytes, p: Pdu) returns (out: bytes)
    requires |before| % 8 == 0
    ensures out == before + Linked(p) && |out| % 8 == 0
  {
    out := PadTail(before, p);
    var length := |out| - |before|;
    PutAfter(before, p + Zeros(PadTo8(|p|)), 20, Le(length, 4));
    out := Put(out, |before| + 20, Le(length, 4));
  }

  method PadTail(before: bytes, p: Pdu) returns (out: bytes)
    requires |before| % 8 == 0
    ensures out == before + (p + Zeros(PadTo8(|p|))) && |out| % 8 == 0
  {
    out := before + p;
    ghost var pad := 0;
    assert out == before + (p + Zeros(0));
    while |out| % 8 != 0
      invariant pad <= PadTo8(|p|) && out == before + (p + Zeros(pad))
      decreases PadTo8(|p|) - pad
    {
      out := out + [0];
      pad := pad + 1;
      OneMoreZero(before, p, pad);
    }
  }

  lemma OneMoreZero(before: bytes, p: bytes, pad: nat)
    requires pad > 0
    ensures before + (p + Zeros(pad - 1)) + [0] == before + (p + Zeros(pad))
  {
  }

  lemma PutAfter(a: bytes, b: bytes, off: nat, f: bytes)
    requires off + |f| <= |b|
    ensures Put(a + b, |a| + off, f) == a + Put(b, off, f)
  {
  }

  /** The second loop: sign each span in place; the others are untouched. */
  method SignSpans(s: Signer, buf: array<byte>, marks: seq<Span>, ghost spans: seq<Pdu>)
    requires Marks(spans, marks) && buf[..] == Concat(spans)
    modifies buf
    ensures buf[..] == Concat(SignAll(Some(s), spans))
  {
    ghost var done := SignAll(Some(s), spans);
    assert done[..0] + spans[0..] == spans;
    for i := 0 to |marks|
      invariant buf[..] == Concat(done[..i] + spans[i..])
    {
      assert MarkAt(spans, marks[i], i);
      SignSpan(s, buf, marks[i], spans, i);
    }
    assert done[..|marks|] + spans[|marks|..] == done;
  }

  method SignSpan(s: Signer, buf: array<byte>, mark: Span, ghost spans: seq<Pdu>, ghost i: nat)
    requires i < |spans| && MarkAt(spans, mark, i)
    requires buf[..] == Concat(SignAll(Some(s), spans)[..i] + spans[i..])
    modifies buf
    ensures buf[..] == Concat(SignAll(Some(s), spans)[..i + 1] + spans[i + 1..])
  {
    ghost var whole := buf[..];
    SignedInPlace(s, spans, i);
    assert buf[mark.start..mark.end] == whole[mark.start..mark.end];
    SignMessage(s, buf, mark.start, mark.end);
  }

  lemma SignedInPlace(s: Signer, spans: seq<Pdu>, i: nat)
    requires i < |spans|
    ensures var done, start := SignAll(Some(s), spans), |Concat(spans[..i])|;
      var whole, end := Concat(done[..i] + spans[i..]), start + |spans[i]|;
      && end <= |whole| && |whole[start..end]| >= HEADER
      && Splice(whole, start, Signed(s, whole[start..end])) == Concat(done[..i + 1] + spans[i + 1..])
  {
    var done := SignAll(Some(s), spans);
    SpanInPlace(done, spans, i);
    assert done[i] == Signed(s, spans[i]);
  }

  lemma {:induction false} SameLengths(a: seq<Pdu>, b: seq<Pdu>)
    requires |a| == |b| && forall i :: 0 <= i < |a| ==> |a[i]| == |b[i]|
    ensures |Concat(a)| == |Concat(b)|
  {
    if a != [] { SameLengths(a[..|a| - 1], b[..|b| - 1]); }
  }

  lemma ConcatAround(a: seq<Pdu>, p: Pdu, b: seq<Pdu>)
    ensures Concat(a + [p] + b) == Concat(a) + p + Concat(b)
  {
    ConcatAppend(a + [p], b);
    ConcatSnoc(a, p);
  }

  lemma SpliceMiddle(a: bytes, p: bytes, q: bytes, b: bytes)
    requires |p| == |q|
    ensures (a + p + b)[|a|..|a| + |p|] == p
    ensures Splice(a + p + b, |a|, q) == a + q + b
  {
  }

  /** Span i of the buffer, when the spans before it have been replaced by ones of the same length. */
  lemma SpanInPlace(done: seq<Pdu>, spans: seq<Pdu>, i: nat)
    requires |done| == |spans| && i < |spans|
    requires forall k :: 0 <= k < |spans| ==> |done[k]| == |spans[k]|
    ensures var whole, start := Concat(done[..i] + spans[i..]), |Concat(spans[..i])|;
      && start + |spans[i]| <= |whole| && whole[start..start + |spans[i]|] == spans[i]
      && Splice(whole, start, done[i]) == Concat(done[..i + 1] + spans[i + 1..])
  {
    SameLengths(done[..i], spans[..i]);
    assert done[..i] + spans[i..] == done[..i] + [spans[i]] + spans[i + 1..];
    assert done[..i + 1] + spans[i + 1..] == done[..i] + [done[i]] + spans[i + 1..];
    ConcatAround(done[..i], spans[i], spans[i + 1..]);
    ConcatAround(done[..i], done[i], spans[i + 1..]);
    SpliceMiddle(Concat(done[..i]), spans[i], done[i], Concat(spans[i + 1..]));
  }

  // ----- reading a response back -----

  /** The spans a client finds by following NextCommand; a zero NextCommand ends the chain. */
  function Walk(m: bytes): seq<bytes>
    decreases |m|
  {
    if |m| < HEADER then []
    else
      var next := NextCommand(m);
      if next < HEADER || next > |m| then [m] else [m[..next]] + Walk(m[next..])
  }

  /** A span carries a PDU: the same bytes up to padding, NextCommand, the signed flag and the
      signature. */
  ghost predicate Carries(s: Option<Signer>, p: Pdu, span: bytes) {
    && |p| <= |span| < |p| + 8
    && (forall i :: |p| <= i < |span| ==> span[i] == 0)
    && (forall i :: 0 <= i < |p| && !(16 <= i < 24) && !(48 <= i < 64) ==> span[i] == p[i])
    && U32At(span, 16) == (if s.Some? && U32At(p, 16) / 8 % 2 == 0 then U32At(p, 16) + 8 else U32At(p, 16))
    && (s == None ==> span[48..64] == p[48..64])
    && (s.Some? ==> Verifies(s.value, span))
  }

  lemma LinkedFields(p: Pdu)
    ensures NextCommand(Linked(p)) == |Linked(p)| && Flags(Linked(p)) == Flags(p)
    ensures forall i :: 0 <= i < |p| && !(20 <= i < 24) ==> Linked(p)[i] == p[i]
    ensures forall i :: |p| <= i < |Linked(p)| ==> Linked(p)[i] == 0
  {
    var q := p + Zeros(PadTo8(|p|));
    FieldOfPut(q, 20, Le(|q|, 4));
    Le32(|q|);
    FieldBesidePut(q, 20, Le(|q|, 4), 16, 4);
    assert Field(q, 16, 4) == Field(p, 16, 4);
  }

  /** A span before it is signed. */
  ghost predicate Holds(p: Pdu, span: bytes) {
    && |p| <= |span| < |p| + 8 && U32At(span, 16) == U32At(p, 16)
    && (forall i :: |p| <= i < |span| ==> span[i] == 0)
    && forall i :: 0 <= i < |p| && !(20 <= i < 24) ==> span[i] == p[i]
  }

  lemma SpanHolds(p: Pdu, span: Pdu)
    requires span == p || span == Linked(p)
    ensures Holds(p, span)
  {
    LinkedFields(p);
  }

  lemma SignedCarries(s: Signer, p: Pdu, span: Pdu)
    requires Holds(p, span)
    ensures Carries(Some(s), p, Signed(s, span)) && NextCommand(Signed(s, span)) == NextCommand(span)
  {
    SignedFields(s, span);
    SignedVerifies(s, span);
    var r := Signed(s, span);
    assert forall i :: |p| <= i < |r| ==> r[i] == span[i];
    assert forall i :: 0 <= i < |p| && !(16 <= i < 24) && !(48 <= i < 64) ==> r[i] == span[i];
  }

  /** Whatever is carried with a key goes out flagged as signed. */
  lemma KeyedSpanIsFlagged(s: Option<Signer>, p: Pdu, span: bytes)
    requires Carries(s, p, span) && s.Some?
    ensures U32At(span, 16) / 8 % 2 == 1
  {
  }

  lemma SpanCarries(s: Option<Signer>, p: Pdu, span: Pdu)
    requires span == p || span == Linked(p)
    ensures Carries(s, p, SignIf(s, span))
    ensures NextCommand(SignIf(s, span)) == NextCommand(span)
  {
    SpanHolds(p, span);
    if s.Some? { SignedCarries(s.value, p, span); }
  }

  lemma {:induction false} WalkConcat(spans: seq<Pdu>)
    requires spans != [] && NextCommand(spans[|spans| - 1]) == 0
    requires forall i :: 0 <= i < |spans| - 1 ==> NextCommand(spans[i]) == |spans[i]|
    ensures Walk(Concat(spans)) == spans
  {
    var m := Concat(spans);
    ConcatAppend(spans[..1], spans[1..]);
    ConcatSnoc([], spans[0]);
    assert spans[..1] == [] + [spans[0]] && spans == spans[..1] + spans[1..];
    assert m == spans[0] + Concat(spans[1..]);
    assert Field(m, 20, 4) == Field(spans[0], 20, 4);
    if |spans| == 1 {
      assert m == spans[0];
    } else {
      forall i | 0 <= i < |spans[1..]| - 1 ensures NextCommand(spans[1..][i]) == |spans[1..][i]| {
        assert spans[1..][i] == spans[i + 1];
      }
      WalkConcat(spans[1..]);
      assert m[..|spans[0]|] == spans[0] && m[|spans[0]|..] == Concat(spans[1..]);
    }
  }

  lemma SpanAt(s: Option<Signer>, pdus: seq<Pdu>, i: nat)
    requires i < |pdus| && NextCommand(pdus[i]) == 0
    ensures var span := SignAll(s, Link(pdus))[i];
      && Carries(s, pdus[i], span)
      && NextCommand(span) == (if i < |pdus| - 1 then |span| else 0)
      && (i < |pdus| - 1 ==> |span| % 8 == 0)
  {
    SpanCarries(s, pdus[i], Link(pdus)[i]);
    LinkedFields(pdus[i]);
  }

  /** Following NextCommand in a response finds the PDUs again, in order and each carrying its PDU;
      every PDU but the last takes a multiple of 8 bytes, so all start 8-aligned. With a key set
      every one of them verifies. */
  lemma ResponseIsReadBack(s: Option<Signer>, pdus: seq<Pdu>)
    requires pdus != [] && forall i :: 0 <= i < |pdus| ==> NextCommand(pdus[i]) == 0
    ensures var found := Walk(Response(s, pdus).value);
      && |found| == |pdus|
      && (forall i :: 0 <= i < |pdus| ==> Carries(s, pdus[i], found[i]))
      && (forall i :: 0 <= i < |pdus| - 1 ==> |found[i]| % 8 == 0)
      && |found[|pdus| - 1]| == |pdus[|pdus| - 1]|
  {
    var spans := SignAll(s, Link(pdus));
    forall i: nat | i < |pdus| { SpanAt(s, pdus, i); }
    WalkConcat(spans);
  }
}
