/** The DER subset of SESSION_SETUP tokens (internal/smb/spnego.go): elements, and the NTLMSSP token inside
    the SPNEGO messages of RFC 4178.
  */
module Der {
  import opened Bytes

  /** derLen: lengths above 16 bits lose their higher part. */
  function DerLen(n: nat): (b: bytes)
    ensures 1 <= |b| <= 3
  {
    if n < 0x80 then [n] else if n < 0x100 then [0x81, n] else [0x82, n / 0x100 % 0x100, n % 0x100]
  }

  /** derTLV */
  function DerTLV(tag: byte, content: bytes): (b: bytes)
    ensures |b| == 1 + |DerLen(|content|)| + |content|
  {
    [tag] + DerLen(|content|) + content
  }

  datatype Element = Bad | Element(tag: byte, content: bytes, rest: bytes)

  /** A number, highest byte first. */
  function Big(f: bytes): nat {
    if f == [] then 0 else 0x100 * Big(f[..|f| - 1]) + f[|f| - 1] as int
  }

  /** derReadTLV */
  function DerRead(b: bytes): (e: Element)
    ensures e.Element? ==> |e.content| + |e.rest| <= |b| - 2
  {
    if |b| < 2 then Bad
    else if b[1] < 0x80 then Split(b[0], b[2..], b[1])
    else
      var n := b[1] - 0x80;
      if n == 0 || n > 4 || |b[2..]| < n then Bad else Split(b[0], b[2..][n..], Big(b[2..][..n]))
  }

  function Split(tag: byte, b: bytes, n: nat): (e: Element)
    ensures e.Element? ==> |e.content| + |e.rest| == |b|
  {
    if |b| < n then Bad else Element(tag, b[..n], b[n..])
  }

  lemma {:induction false} BigSnoc(f: bytes, v: byte)
    ensures Big(f + [v]) == 0x100 * Big(f) + v
  {
    assert (f + [v])[..|f|] == f;
  }

  method DerReadTLV(b: bytes) returns (e: Element)
    ensures e == DerRead(b)
  {
    if |b| < 2 { return Bad; }
    var tag := b[0];
    var n: nat := b[1];
    var body := b[2..];
    if n >= 0x80 {
      var nbytes: nat := n - 0x80;
      if nbytes == 0 || nbytes > 4 || |body| < nbytes { return Bad; }
      n := 0;
      for j := 0 to nbytes
        invariant n == Big(body[..j])
      {
        BigSnoc(body[..j], body[j]);
        assert body[..j + 1] == body[..j] + [body[j]];
        n := 0x100 * n + body[j] as int;
      }
      body := body[nbytes..];
    }
    return Split(tag, body, n);
  }

  lemma BigOfTwo(h: byte, l: byte)
    ensures Big([h, l]) == 0x100 * h as int + l as int
  {
    BigSnoc([h], l);
    BigSnoc([], h);
    assert [h] + [l] == [h, l];
    assert [] + [h] == [h];
  }

  /** The lengths of X.690: one byte below 128, otherwise a count of bytes with the top bit and the number. */
  lemma LengthsAsListed(n: nat)
    ensures n < 128 ==> DerLen(n) == [n]
    ensures 128 <= n < 256 ==> DerLen(n) == [129, n]
    ensures 256 <= n < 65536 ==>
      DerLen(n)[0] == 130 && |DerLen(n)| == 3 && n == 256 * DerLen(n)[1] as int + DerLen(n)[2] as int
  {
  }

  /** What the reader takes for lengths of one to four bytes. */
  lemma LengthsAsRead(tag: byte, k: byte, f: bytes, body: bytes)
    requires k >= 128 && |f| == k as int - 128 && 1 <= |f| <= 4
    ensures DerRead([tag, k] + f + body) == if |body| < Big(f) then Bad else Element(tag, body[..Big(f)], body[Big(f)..])
  {
    var b := [tag, k] + f + body;
    assert b[2..] == f + body;
    assert (f + body)[..|f|] == f && (f + body)[|f|..] == body;
  }

  /** What it refuses: none of them, more than four, and what is cut short. */
  lemma LengthsRefused(tag: byte, k: byte, f: bytes)
    requires k == 128 || k > 132 || (k > 128 && |f| < k as int - 128)
    ensures DerRead([tag, k] + f).Bad? && DerRead([]).Bad? && DerRead([tag]).Bad?
  {
    assert ([tag, k] + f)[2..] == f;
  }

  lemma ShortLengthsAsRead(tag: byte, n: byte, body: bytes)
    requires n < 128
    ensures DerRead([tag, n] + body) == if |body| < n as int then Bad else Element(tag, body[..n], body[n..])
  {
    ReadShort(tag, n, body);
  }

  lemma BigMeans(a: byte, b: byte, c: byte, d: byte)
    ensures Big([a]) == a as int && Big([a, b]) == 256 * a as int + b as int
    ensures Big([a, b, c]) == 65536 * a as int + 256 * b as int + c as int
    ensures Big([a, b, c, d]) == 16777216 * a as int + 65536 * b as int + 256 * c as int + d as int
  {
    BigSnoc([], a);
    assert [] + [a] == [a];
    BigSnoc([a], b);
    assert [a] + [b] == [a, b];
    BigSnoc([a, b], c);
    assert [a, b] + [c] == [a, b, c];
    BigSnoc([a, b, c], d);
    assert [a, b, c] + [d] == [a, b, c, d];
  }

  lemma ReadShort(tag: byte, n: byte, body: bytes)
    requires n < 0x80
    ensures DerRead([tag, n] + body) == Split(tag, body, n)
  {
    assert ([tag, n] + body)[2..] == body;
  }

  lemma ReadOne(tag: byte, n: byte, body: bytes)
    ensures DerRead([tag, 0x81, n] + body) == Split(tag, body, n)
  {
    var b := [tag, 0x81, n] + body;
    assert b[2..][..1] == [n] && b[2..][1..] == body;
    BigSnoc([], n);
    assert [] + [n] == [n];
  }

  lemma ReadTwo(tag: byte, h: byte, l: byte, body: bytes)
    ensures DerRead([tag, 0x82, h, l] + body) == Split(tag, body, 0x100 * h as int + l as int)
  {
    var b := [tag, 0x82, h, l] + body;
    assert b[2..][..2] == [h, l] && b[2..][2..] == body;
    BigOfTwo(h, l);
  }

  /** What a printed element is read as: lengths from 65536 on are cut to 16 bits. */
  lemma ReadOfPrinted(tag: byte, content: bytes, rest: bytes)
    ensures DerRead(DerTLV(tag, content) + rest) == Split(tag, content + rest, |content| % 0x1_0000)
  {
    var n := |content|;
    var head := [tag] + DerLen(n);
    assert DerTLV(tag, content) + rest == head + (content + rest) by { Assoc(head, content, rest); }
    if n < 0x80 {
      ReadShort(tag, n, content + rest);
    } else if n < 0x100 {
      assert head == [tag, 0x81, n];
      ReadOne(tag, n, content + rest);
    } else {
      var h, l := n / 0x100 % 0x100, n % 0x100;
      assert head == [tag, 0x82, h, l];
      ReadTwo(tag, h, l, content + rest);
      LowBytes(n);
    }
  }

  lemma LowBytes(n: nat)
    ensures 0x100 * (n / 0x100 % 0x100) + n % 0x100 == n % 0x1_0000
  {
    var m := n / 0x100;
    var t := m / 0x100;
    assert n == 0x100 * m + n % 0x100 && m == 0x100 * t + m % 0x100;
    assert n == 0x1_0000 * t + (0x100 * (m % 0x100) + n % 0x100);
  }

  /** The reader undoes the printer exactly when the content is shorter than 65536 bytes. */
  lemma ReaderUndoesPrinter(tag: byte, content: bytes, rest: bytes)
    ensures DerRead(DerTLV(tag, content) + rest) == Element(tag, content, rest) <==> |content| < 0x1_0000
  {
    ReadOfPrinted(tag, content, rest);
    assert (content + rest)[..|content|] == content && (content + rest)[|content|..] == rest;
  }

  // ----- SPNEGO -----

  const OID_NLMP: bytes := [0x06, 0x0A, 0x2b, 0x06, 0x01, 0x04, 0x01, 0x82, 0x37, 0x02, 0x02, 0x0A]

  /** The content of the first element, if it is well formed and has the tag. */
  function Inside(b: bytes, tag: byte): (c: Option<bytes>)
    ensures c.Some? ==> |c.value| <= |b|
  {
    var e := DerRead(b);
    if e.Bad? || e.tag != tag then None else Some(e.content)
  }

  /** The sequence of fields in a negTokenInit or a negTokenResp. */
  function Fields(buf: bytes): (c: Option<bytes>)
  {
    var e := DerRead(buf);
    if e.Bad? then None
    else if e.tag == 0x60 then
      var oid := DerRead(e.content);
      if oid.Bad? then None
      else
        var init := Inside(oid.rest, 0xA0);
        if init.None? then None else Inside(init.value, 0x30)
    else if e.tag == 0xA1 then Inside(e.content, 0x30)
    else None
  }

  /** The octet string in the first [2] of a sequence of fields. */
  function TokenIn(fields: bytes): (t: Option<bytes>)
    ensures t.Some? ==> |t.value| <= |fields|
    decreases |fields|
  {
    if fields == [] then None
    else
      var e := DerRead(fields);
      if e.Bad? then None
      else if e.tag == 0xA2 then Inside(e.content, 0x04)
      else TokenIn(e.rest)
  }

  function Extracted(buf: bytes): Option<bytes> {
    var fields := Fields(buf);
    if fields.None? then None else TokenIn(fields.value)
  }

  /** spnegoExtractNTLM */
  method ExtractNTLM(buf: bytes) returns (token: Option<bytes>)
    ensures token == Extracted(buf)
  {
    var found := FindFields(buf);
    if found.None? { return None; }
    var fields := found.value;
    while fields != []
      invariant TokenIn(fields) == TokenIn(found.value)
      decreases |fields|
    {
      var e := DerReadTLV(fields);
      if e.Bad? { return None; }
      if e.tag == 0xA2 {
        var octets := DerReadTLV(e.content);
        if octets.Bad? || octets.tag != 0x04 { return None; }
        return Some(octets.content);
      }
      fields := e.rest;
    }
    return None;
  }

  method FindFields(buf: bytes) returns (fields: Option<bytes>)
    ensures fields == Fields(buf)
  {
    var e := DerReadTLV(buf);
    if e.Bad? { return None; }
    var sequence;
    if e.tag == 0x60 {
      var oid := DerReadTLV(e.content);
      if oid.Bad? { return None; }
      var init := DerReadTLV(oid.rest);
      if init.Bad? || init.tag != 0xA0 { return None; }
      sequence := DerReadTLV(init.content);
    } else if e.tag == 0xA1 {
      sequence := DerReadTLV(e.content);
    } else {
      return None;
    }
    if sequence.Bad? || sequence.tag != 0x30 { return None; }
    return Some(sequence.content);
  }

  function RespFields(state: byte, supportedMech: bool, token: Option<bytes>): bytes {
    DerTLV(0xA0, DerTLV(0x0A, [state]))
    + (if supportedMech then DerTLV(0xA1, OID_NLMP) else [])
    + (if token.Some? then DerTLV(0xA2, DerTLV(0x04, token.value)) else [])
  }

  function NegTokenResp(state: byte, supportedMech: bool, token: Option<bytes>): bytes {
    DerTLV(0xA1, DerTLV(0x30, RespFields(state, supportedMech, token)))
  }

  function AppendIf(wanted: bool, fields: bytes, field: bytes): (longer: bytes)
    ensures longer == fields + if wanted then field else []
  {
    if wanted then fields + field else fields
  }

  /** buildNegTokenResp */
  method BuildNegTokenResp(state: byte, supportedMech: bool, token: Option<bytes>) returns (b: bytes)
    ensures b == NegTokenResp(state, supportedMech, token)
  {
    var fields := DerTLV(0xA0, DerTLV(0x0A, [state]));
    fields := AppendIf(supportedMech, fields, DerTLV(0xA1, OID_NLMP));
    fields := AppendIf(token.Some?, fields, DerTLV(0xA2, DerTLV(0x04, token.GetOr([]))));
    b := DerTLV(0xA1, DerTLV(0x30, fields));
  }

  /** A negTokenResp is [1] around a sequence of [0] with the state, [1] with the mechanism's object identifier
      1.3.6.1.4.1.311.2.2.10 when it is wanted, and [2] with the token as an octet string when there is one. */
  lemma RespAsListed(state: byte, supportedMech: bool, token: Option<bytes>)
    requires token.Some? ==> |token.value| < 80
    ensures var fields := [0xA0, 3, 0x0A, 1, state]
        + (if supportedMech then [0xA1, 12, 6, 10, 43, 6, 1, 4, 1, 130, 55, 2, 2, 10] else [])
        + (if token.Some? then [0xA2, 2 + |token.value|, 4, |token.value|] + token.value else []);
      NegTokenResp(state, supportedMech, token) == [0xA1, 2 + |fields|, 0x30, |fields|] + fields
  {
    FirstField(state);
    MechField();
    if token.Some? { TokenField(token.value); }
    Wrapped(RespFields(state, supportedMech, token));
  }

  lemma FirstField(state: byte)
    ensures DerTLV(0xA0, DerTLV(0x0A, [state])) == [0xA0, 3, 0x0A, 1, state]
  {
    ShortTLV(0x0A, [state]);
    ShortTLV(0xA0, DerTLV(0x0A, [state]));
  }

  lemma MechField()
    ensures DerTLV(0xA1, OID_NLMP) == [0xA1, 12, 6, 10, 43, 6, 1, 4, 1, 130, 55, 2, 2, 10]
  {
    ShortTLV(0xA1, OID_NLMP);
  }

  lemma TokenField(token: bytes)
    requires |token| < 80
    ensures DerTLV(0xA2, DerTLV(0x04, token)) == [0xA2, 2 + |token|, 4, |token|] + token
  {
    ShortTLV(0x04, token);
    ShortTLV(0xA2, [0x04, |token|] + token);
    assert [0xA2, 2 + |token|] + ([0x04, |token|] + token) == [0xA2, 2 + |token|, 4, |token|] + token;
  }

  lemma ShortTLV(tag: byte, content: bytes)
    requires |content| < 128
    ensures DerTLV(tag, content) == [tag, |content|] + content
  {
  }

  lemma Wrapped(fields: bytes)
    requires |fields| < 120
    ensures DerTLV(0xA1, DerTLV(0x30, fields)) == [0xA1, 2 + |fields|, 0x30, |fields|] + fields
  {
    ShortTLV(0x30, fields);
    ShortTLV(0xA1, [0x30, |fields|] + fields);
  }

  /** Nothing but the two SPNEGO messages is looked into, and in them nothing but [2]. */
  lemma OthersAreRefused(buf: bytes)
    requires DerRead(buf).Bad? || (DerRead(buf).tag != 0x60 && DerRead(buf).tag != 0xA1)
    ensures Extracted(buf) == None
  {
  }

  /** The first [2] of the fields decides: its octet string is the token, and anything else in it is refused. */
  lemma FirstTokenDecides(content: bytes, rest: bytes)
    requires |content| < 0x1_0000
    ensures TokenIn(DerTLV(0xA2, content) + rest)
      == if DerRead(content).Bad? || DerRead(content).tag != 4 then None else Some(DerRead(content).content)
  {
    ReaderUndoesPrinter(0xA2, content, rest);
  }

  // ----- the extractor undoes the builder -----

  lemma InsidePrinted(tag: byte, content: bytes)
    requires |content| < 0x1_0000
    ensures Inside(DerTLV(tag, content), tag) == Some(content)
  {
    ReaderUndoesPrinter(tag, content, []);
    assert DerTLV(tag, content) + [] == DerTLV(tag, content);
  }

  /** A field that is not [2] is passed over. */
  lemma SkipField(tag: byte, content: bytes, rest: bytes)
    requires |content| < 0x1_0000 && tag != 0xA2
    ensures TokenIn(DerTLV(tag, content) + rest) == TokenIn(rest)
  {
    ReaderUndoesPrinter(tag, content, rest);
  }

  lemma TakeField(token: bytes)
    requires |DerTLV(0x04, token)| < 0x1_0000
    ensures TokenIn(DerTLV(0xA2, DerTLV(0x04, token))) == Some(token)
  {
    var octets := DerTLV(0x04, token);
    ReaderUndoesPrinter(0xA2, octets, []);
    assert DerTLV(0xA2, octets) + [] == DerTLV(0xA2, octets);
    InsidePrinted(0x04, token);
  }

  lemma TokenOfFields(state: byte, supportedMech: bool, token: Option<bytes>)
    requires token.Some? ==> |DerTLV(0x04, token.value)| < 0x1_0000
    ensures TokenIn(RespFields(state, supportedMech, token)) == token
  {
    var tail := if token.Some? then DerTLV(0xA2, DerTLV(0x04, token.value)) else [];
    if token.Some? { TakeField(token.value); }
    assert TokenIn(tail) == token;
    var first := DerTLV(0xA0, DerTLV(0x0A, [state]));
    if supportedMech {
      var mech := DerTLV(0xA1, OID_NLMP);
      SkipField(0xA1, OID_NLMP, tail);
      Assoc(first, mech, tail);
      SkipField(0xA0, DerTLV(0x0A, [state]), mech + tail);
    } else {
      assert first + [] == first;
      SkipField(0xA0, DerTLV(0x0A, [state]), tail);
    }
  }

  /** What the layers around a token add. */
  lemma Layers(state: byte, supportedMech: bool, token: bytes)
    ensures var n := |DerTLV(0x30, RespFields(state, supportedMech, Some(token)))|;
      && |token| < n <= |token| + (if supportedMech then 31 else 17)
      && (|token| >= 0x100 ==> n == |token| + if supportedMech then 31 else 17)
  {
    assert |DerTLV(0xA0, DerTLV(0x0A, [state]))| == 5;
    assert |DerTLV(0xA1, OID_NLMP)| == 14;
  }

  /** A token comes back exactly when its message's inner element is shorter than 65536 bytes: up to 65518
      bytes of token, or 65504 where the mechanism is named. A longer one is cut. */
  lemma ExtractUndoesBuild(state: byte, supportedMech: bool, token: bytes)
    ensures Extracted(NegTokenResp(state, supportedMech, Some(token))) == Some(token)
      <==> |token| + (if supportedMech then 31 else 17) < 0x1_0000
  {
    Layers(state, supportedMech, token);
    if |DerTLV(0x30, RespFields(state, supportedMech, Some(token)))| < 0x1_0000 {
      ShortTokenComesBack(state, supportedMech, token);
    } else {
      LongTokenIsCut(state, supportedMech, token);
    }
  }

  lemma ShortTokenComesBack(state: byte, supportedMech: bool, token: bytes)
    requires |DerTLV(0x30, RespFields(state, supportedMech, Some(token)))| < 0x1_0000
    ensures Extracted(NegTokenResp(state, supportedMech, Some(token))) == Some(token)
  {
    var fields := RespFields(state, supportedMech, Some(token));
    InsidePrinted(0xA1, DerTLV(0x30, fields));
    InsidePrinted(0x30, fields);
    TokenOfFields(state, supportedMech, Some(token));
  }

  /** Nothing is extracted that is longer than what the outermost length covers. */
  lemma ExtractedIsCovered(buf: bytes)
    requires Extracted(buf).Some?
    ensures DerRead(buf).Element? && |Extracted(buf).value| <= |DerRead(buf).content|
  {
  }

  lemma LongTokenIsCut(state: byte, supportedMech: bool, token: bytes)
    requires |DerTLV(0x30, RespFields(state, supportedMech, Some(token)))| >= 0x1_0000
    ensures Extracted(NegTokenResp(state, supportedMech, Some(token))) != Some(token)
  {
    Layers(state, supportedMech, token);
    PrintedIsCut(0xA1, DerTLV(0x30, RespFields(state, supportedMech, Some(token))));
    var found := Extracted(NegTokenResp(state, supportedMech, Some(token)));
    if found.Some? { ExtractedIsCovered(NegTokenResp(state, supportedMech, Some(token))); }
  }

  lemma PrintedIsCut(tag: byte, content: bytes)
    requires |content| >= 0x1_0000
    ensures var e := DerRead(DerTLV(tag, content)); e.Element? && |e.content| <= |content| - 0x1_0000
  {
    ReadOfPrinted(tag, content, []);
    assert DerTLV(tag, content) + [] == DerTLV(tag, content);
    assert content + [] == content;
  }

  /** And without a token none is found. */
  lemma NoTokenToExtract(state: byte, supportedMech: bool)
    ensures Extracted(NegTokenResp(state, supportedMech, None)) == None
  {
    var fields := RespFields(state, supportedMech, None);
    InsidePrinted(0xA1, DerTLV(0x30, fields));
    InsidePrinted(0x30, fields);
    TokenOfFields(state, supportedMech, None);
  }

  /** The client's first message (section 4.2.1 of RFC 4178) around a token. */
  function NegTokenInit(oid: bytes, mechTypes: bytes, token: bytes): bytes {
    DerTLV(0x60, DerTLV(0x06, oid)
      + DerTLV(0xA0, DerTLV(0x30, DerTLV(0xA0, mechTypes) + DerTLV(0xA2, DerTLV(0x04, token)))))
  }

  lemma ExtractFromInit(oid: bytes, mechTypes: bytes, token: bytes)
    requires |oid| + |mechTypes| + |token| < 0xFF00
    ensures Extracted(NegTokenInit(oid, mechTypes, token)) == Some(token)
  {
    var fields := DerTLV(0xA0, mechTypes) + DerTLV(0xA2, DerTLV(0x04, token));
    var init := DerTLV(0xA0, DerTLV(0x30, fields));
    InsidePrinted(0x60, DerTLV(0x06, oid) + init);
    ReaderUndoesPrinter(0x06, oid, init);
    InsidePrinted(0xA0, DerTLV(0x30, fields));
    InsidePrinted(0x30, fields);
    SkipField(0xA0, mechTypes, DerTLV(0xA2, DerTLV(0x04, token)));
    TakeField(token);
  }

  // ----- arbitrary bytes -----

  predicate SliceAt(whole: bytes, i: nat, part: bytes) {
    i + |part| <= |whole| && whole[i..][..|part|] == part
  }

  ghost predicate Within(part: bytes, whole: bytes) {
    exists i: nat :: SliceAt(whole, i, part)
  }

  lemma WithinWithin(a: bytes, b: bytes, c: bytes)
    requires Within(a, b) && Within(b, c)
    ensures Within(a, c)
  {
    var i: nat :| SliceAt(b, i, a);
    var j: nat :| SliceAt(c, j, b);
    assert c[j + i..][..|a|] == c[j..][..|b|][i..][..|a|];
    assert SliceAt(c, j + i, a);
  }

  lemma SplitWithin(tag: byte, b: bytes, n: nat, whole: bytes)
    requires Within(b, whole) && Split(tag, b, n).Element?
    ensures Within(Split(tag, b, n).content, whole) && Within(Split(tag, b, n).rest, whole)
  {
    assert SliceAt(b, 0, b[..n]) by { assert b[0..] == b; }
    assert SliceAt(b, n, b[n..]) by { assert b[n..][..|b[n..]|] == b[n..]; }
    WithinWithin(b[..n], b, whole);
    WithinWithin(b[n..], b, whole);
  }

  lemma ReadWithin(b: bytes)
    requires DerRead(b).Element?
    ensures Within(DerRead(b).content, b) && Within(DerRead(b).rest, b)
  {
    var i := if b[1] < 0x80 then 2 else 2 + (b[1] - 0x80) as int;
    assert b[2..][i - 2..] == b[i..];
    assert b[i..][..|b[i..]|] == b[i..];
    assert SliceAt(b, i, b[i..]);
    SplitWithin(b[0], b[i..], |DerRead(b).content|, b);
  }

  lemma InsideWithin(b: bytes, tag: byte, whole: bytes)
    requires Inside(b, tag).Some? && Within(b, whole)
    ensures Within(Inside(b, tag).value, whole)
  {
    ReadWithin(b);
    WithinWithin(DerRead(b).content, b, whole);
  }

  lemma {:induction false} TokenWithin(fields: bytes, whole: bytes)
    requires TokenIn(fields).Some? && Within(fields, whole)
    ensures Within(TokenIn(fields).value, whole)
    decreases |fields|
  {
    var e := DerRead(fields);
    ReadWithin(fields);
    WithinWithin(e.content, fields, whole);
    WithinWithin(e.rest, fields, whole);
    if e.tag == 0xA2 { InsideWithin(e.content, 0x04, whole); } else { TokenWithin(e.rest, whole); }
  }

  lemma FieldsWithin(buf: bytes)
    requires Fields(buf).Some?
    ensures Within(Fields(buf).value, buf)
  {
    var e := DerRead(buf);
    ReadWithin(buf);
    if e.tag == 0x60 {
      var oid := DerRead(e.content);
      ReadWithin(e.content);
      WithinWithin(oid.rest, e.content, buf);
      InsideWithin(oid.rest, 0xA0, buf);
      InsideWithin(Inside(oid.rest, 0xA0).value, 0x30, buf);
    } else {
      InsideWithin(e.content, 0x30, buf);
    }
  }

  /** Whatever the bytes, a token that is found is a slice of them. */
  lemma ExtractedIsASlice(buf: bytes)
    requires Extracted(buf).Some?
    ensures Within(Extracted(buf).value, buf)
  {
    FieldsWithin(buf);
    TokenWithin(Fields(buf).value, buf);
  }
}
