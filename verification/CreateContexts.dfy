/** Create contexts (internal/smb/aapl.go): a chain of named blobs behind the fixed part of a CREATE
    ([MS-SMB2] section 2.2.13.2).
  */
module CreateContexts {
  import opened Bytes

  type Table = map<bytes, bytes>

  // ----- one context -----

  /** Where a context's data stands. */
  function DataAt(name: bytes): (n: nat)
    ensures 16 + |name| <= n < 24 + |name|
  {
    RoundUp8(16 + |name|)
  }

  function BlobSize(name: bytes, data: bytes): (n: nat)
    ensures n % 8 == 0 && DataAt(name) + |data| <= n
  {
    RoundUp8(DataAt(name) + |data|)
  }

  /** The 16 bytes ahead of the name: next, where the name is and how long, where the data is and how long. */
  function Head(next: nat, nameLen: nat, dataAt: nat, dataLen: nat): (h: bytes)
    ensures |h| == 16
  {
    Le(next, 4) + Le(16, 2) + Le(nameLen, 2) + Zeros(2) + Le(dataAt, 2) + Le(dataLen, 4)
  }

  function Blob(next: nat, name: bytes, data: bytes): (b: bytes)
    ensures |b| == BlobSize(name, data)
  {
    var at := DataAt(name);
    Head(next, |name|, at, |data|) + name + Zeros(at - 16 - |name|) + data + Zeros(BlobSize(name, data) - at - |data|)
  }

  /** The head written at its offsets into a zeroed buffer. */
  method FillHead(b: bytes, n: nat, nameLen: nat, dataAt: nat, dataLen: nat) returns (b': bytes)
    requires b == Zeros(n) && n >= 16
    ensures b' == Buffer(Head(0, nameLen, dataAt, dataLen), n - 16)
  {
    b' := Put(b, 4, Le(16, 2));
    assert b == Buffer(Zeros(4), n - 4);
    Fill(Zeros(4), n - 4, Le(16, 2));
    b' := Put(b', 6, Le(nameLen, 2));
    var p := Zeros(4) + Le(16, 2);
    Fill(p, n - 6, Le(nameLen, 2));
    p := p + Le(nameLen, 2);
    Skip(p, n - 8, 2);
    b' := Put(b', 10, Le(dataAt, 2));
    Fill(p + Zeros(2), n - 10, Le(dataAt, 2));
    p := p + Zeros(2) + Le(dataAt, 2);
    b' := Put(b', 12, Le(dataLen, 4));
    Fill(p, n - 12, Le(dataLen, 4));
    NoNext();
  }

  lemma NoNext()
    ensures Le(0, 4) == Zeros(4)
  {
  }

  /** createContextBlob: the last context of a chain. */
  method CreateContextBlob(name: bytes, data: bytes) returns (b: bytes)
    ensures b == Blob(0, name, data)
  {
    var at, n := DataAt(name), BlobSize(name, data);
    b := FillHead(Zeros(n), n, |name|, at, |data|);
    var h := Head(0, |name|, at, |data|);
    b := Put(b, 16, name);
    Fill(h, n - 16, name);
    Skip(h + name, n - 16 - |name|, at - 16 - |name|);
    b := Put(b, at, data);
    Fill(h + name + Zeros(at - 16 - |name|), n - at, data);
  }

  // ----- a chain -----

  datatype Context = Context(name: bytes, data: bytes)

  /** Contexts whose lengths fit their fields. */
  predicate Fits(c: Context) {
    0 < |c.name| && DataAt(c.name) < 0x1_0000 && BlobSize(c.name, c.data) < 0x1_0000_0000
  }

  predicate AllFit(cs: seq<Context>) { forall i :: 0 <= i < |cs| ==> Fits(cs[i]) }

  /** What a client sends: each context points to the next by its own size, the last to none. */
  function Chain(cs: seq<Context>): bytes {
    if cs == [] then []
    else if |cs| == 1 then Blob(0, cs[0].name, cs[0].data)
    else Blob(BlobSize(cs[0].name, cs[0].data), cs[0].name, cs[0].data) + Chain(cs[1..])
  }

  /** What the chain says: of two contexts of one name, the later. */
  function Said(m: Table, cs: seq<Context>): Table
    decreases |cs|
  {
    if cs == [] then m else Said(m[cs[0].name := cs[0].data], cs[1..])
  }

  // ----- reading it -----

  /** The context at the front of s, or None when it has no name or reaches past the end. */
  function ReadContext(s: bytes): Option<Context>
    requires |s| >= 16
  {
    var nameAt, nameLen := U16At(s, 4), U16At(s, 6);
    var dataAt, dataLen := U16At(s, 10), U32At(s, 12);
    if nameLen == 0 || nameAt + nameLen > |s| || dataAt + dataLen > |s| then None
    else Some(Context(s[nameAt..][..nameLen], s[dataAt..][..dataLen]))
  }

  /** The walk from the front of s, of which the first `left` bytes belong to the contexts. */
  function Walk(s: bytes, left: int, m: Table): Table
    requires left <= |s|
    decreases |s|
  {
    if left < 16 then m
    else
      var c := ReadContext(s);
      if c.None? then m
      else
        var m', next := m[c.value.name := c.value.data], U32At(s, 0);
        if next == 0 || next > |s| then m' else Walk(s[next..], left - next, m')
  }

  /** createContexts, of the body of a CREATE request. */
  function Contexts(body: bytes): Option<Table> {
    if |body| < 56 then None
    else
      var off, length := U32At(body, 48) - 64, U32At(body, 52);
      if off < 0 || length <= 0 || off + length > |body| then None
      else Some(Walk(body[off..], length, map[]))
  }

  /** No contexts at all: a short body, an offset into the header, a length that is zero or goes beyond the body. */
  lemma NoContexts(body: bytes)
    ensures Contexts(body).None? <==>
      || |body| < 56 || U32At(body, 48) < 64 || U32At(body, 52) == 0
      || U32At(body, 48) - 64 + U32At(body, 52) > |body|
  {
  }

  /** The walk ends without a further context at one that has no name, or whose name or data goes beyond the body,
      and where fewer than 16 bytes are left; a zero offset ends it after its context. */
  lemma WhereTheWalkEnds(s: bytes, left: nat, m: Table)
    requires left <= |s|
    ensures left < 16 ==> Walk(s, left, m) == m
    ensures left >= 16 && (U16At(s, 6) == 0 || U16At(s, 4) + U16At(s, 6) > |s| || U16At(s, 10) + U32At(s, 12) > |s|) ==>
      Walk(s, left, m) == m
    ensures (left >= 16 && U16At(s, 6) != 0 && U16At(s, 4) + U16At(s, 6) <= |s| && U16At(s, 10) + U32At(s, 12) <= |s|
        && U32At(s, 0) == 0) ==>
      Walk(s, left, m) == m[s[U16At(s, 4)..U16At(s, 4) + U16At(s, 6)] := s[U16At(s, 10)..U16At(s, 10) + U32At(s, 12)]]
  {
    if left >= 16 && U16At(s, 4) + U16At(s, 6) <= |s| && U16At(s, 10) + U32At(s, 12) <= |s| {
      assert s[U16At(s, 4)..][..U16At(s, 6)] == s[U16At(s, 4)..U16At(s, 4) + U16At(s, 6)];
      assert s[U16At(s, 10)..][..U32At(s, 12)] == s[U16At(s, 10)..U16At(s, 10) + U32At(s, 12)];
    }
  }

  method CreateContexts(body: bytes) returns (ctxs: Option<Table>)
    ensures ctxs == Contexts(body)
  {
    if |body| < 56 { return None; }
    var off, length := U32At(body, 48) - 64, U32At(body, 52);
    if off < 0 || length <= 0 || off + length > |body| { return None; }
    var m: Table := map[];
    var base := off;
    while base + 16 <= off + length
      invariant off <= base
      invariant base <= |body| ==> off + length - base <= |body[base..]|
      invariant base <= |body| ==> Walk(body[base..], off + length - base, m) == Walk(body[off..], length, map[])
      invariant base > |body| ==> m == Walk(body[off..], length, map[])
      decreases |body| - base
    {
      var s := body[base..];
      var c := ReadContext(s);
      if c.None? { break; }
      m := m[c.value.name := c.value.data];
      var next := U32At(s, 0);
      if next == 0 { return Some(m); }
      if base + next <= |body| { assert s[next..] == body[base + next..]; }
      base := base + next;
    }
    return Some(m);
  }

  // ----- the reader undoes the writer -----

  lemma HeadParts(a: bytes, n: bytes, l: bytes, z: bytes, d: bytes, e: bytes, rest: bytes)
    requires |a| == |e| == 4 && |n| == |l| == |z| == |d| == 2
    ensures var s := a + n + l + z + d + e + rest;
      && Field(s, 0, 4) == a && Field(s, 4, 2) == n && Field(s, 6, 2) == l
      && Field(s, 10, 2) == d && Field(s, 12, 4) == e
  {
  }

  /** The numbers of a head. */
  ghost predicate Says(s: bytes, next: nat, nameLen: nat, dataAt: nat, dataLen: nat) {
    && |s| >= 16 && U32At(s, 0) == next && U16At(s, 4) == 16 && U16At(s, 6) == nameLen
    && U16At(s, 10) == dataAt && U32At(s, 12) == dataLen
  }

  lemma HeadSays(next: u32, nameLen: u16, dataAt: u16, dataLen: u32, rest: bytes)
    ensures Says(Head(next, nameLen, dataAt, dataLen) + rest, next, nameLen, dataAt, dataLen)
  {
    var sixteen: u16 := 16;
    HeadParts(Le(next, 4), Le(sixteen, 2), Le(nameLen, 2), Zeros(2), Le(dataAt, 2), Le(dataLen, 4), rest);
    Le32(next);
    Le16(sixteen);
    Le16(nameLen);
    Le16(dataAt);
    Le32(dataLen);
  }

  lemma BlobParts(h: bytes, name: bytes, gap: bytes, data: bytes, rest: bytes)
    requires |h| == 16
    ensures var s := h + (name + gap + data + rest);
      s[16..][..|name|] == name && s[16 + |name| + |gap|..][..|data|] == data
  {
  }

  /** A context is read as it was written, whatever follows. */
  lemma BlobIsRead(c: Context, next: u32, rest: bytes)
    requires Fits(c)
    ensures var s := Blob(next, c.name, c.data) + rest;
      |s| >= 16 && ReadContext(s) == Some(c) && U32At(s, 0) == next
  {
    var at := DataAt(c.name);
    var h, gap := Head(next, |c.name|, at, |c.data|), Zeros(at - 16 - |c.name|);
    var tail := Zeros(BlobSize(c.name, c.data) - at - |c.data|) + rest;
    var s := Blob(next, c.name, c.data) + rest;
    assert s == h + (c.name + gap + c.data + tail);
    HeadSays(next, |c.name|, at, |c.data|, c.name + gap + c.data + tail);
    BlobParts(h, c.name, gap, c.data, tail);
  }

  /** A chain is read as it was written. */
  lemma {:induction false} ChainIsRead(cs: seq<Context>, m: Table, rest: bytes)
    requires cs != [] && AllFit(cs)
    ensures Walk(Chain(cs) + rest, |Chain(cs)|, m) == Said(m, cs)
  {
    var c, size := cs[0], BlobSize(cs[0].name, cs[0].data);
    var m' := m[c.name := c.data];
    if |cs| == 1 {
      BlobIsRead(c, 0, rest);
      assert Said(m', cs[1..]) == m';
    } else {
      var b, tail := Blob(size, c.name, c.data), Chain(cs[1..]);
      Assoc(b, tail, rest);
      BlobIsRead(c, size, tail + rest);
      assert (b + (tail + rest))[size..] == tail + rest;
      ChainIsRead(cs[1..], m', rest);
    }
  }

  /** Contexts a client appends to its request are found, however the rest of the request reads. */
  lemma RequestContextsAreFound(body: bytes, cs: seq<Context>, rest: bytes)
    requires |body| >= 56 && cs != [] && AllFit(cs)
    requires U32At(body, 48) >= 64 && U32At(body, 52) == |Chain(cs)|
    requires U32At(body, 48) - 64 <= |body| && body[U32At(body, 48) - 64..] == Chain(cs) + rest
    ensures Contexts(body) == Some(Said(map[], cs))
  {
    ChainIsRead(cs, map[], rest);
  }

  lemma {:induction false} LaterSaysNothing(m: Table, cs: seq<Context>, name: bytes)
    requires forall i :: 0 <= i < |cs| ==> cs[i].name != name
    ensures (name in Said(m, cs) <==> name in m) && (name in m ==> Said(m, cs)[name] == m[name])
    decreases |cs|
  {
    if cs != [] { LaterSaysNothing(m[cs[0].name := cs[0].data], cs[1..], name); }
  }

  /** Each context of a name that no later one has is recovered. */
  lemma {:induction false} EachIsRecovered(m: Table, cs: seq<Context>, k: nat)
    requires k < |cs| && forall i :: k < i < |cs| ==> cs[i].name != cs[k].name
    ensures cs[k].name in Said(m, cs) && Said(m, cs)[cs[k].name] == cs[k].data
    decreases |cs|
  {
    var m' := m[cs[0].name := cs[0].data];
    if k == 0 { LaterSaysNothing(m', cs[1..], cs[0].name); } else { EachIsRecovered(m', cs[1..], k - 1); }
  }

  /** And nothing else is found. */
  lemma {:induction false} NothingElse(m: Table, cs: seq<Context>, name: bytes)
    requires name in Said(m, cs)
    ensures name in m || exists i :: 0 <= i < |cs| && cs[i].name == name
    decreases |cs|
  {
    if cs != [] {
      NothingElse(m[cs[0].name := cs[0].data], cs[1..], name);
      if exists i :: 0 <= i < |cs[1..]| && cs[1..][i].name == name {
        var i :| 0 <= i < |cs[1..]| && cs[1..][i].name == name;
        assert cs[i + 1].name == name;
      }
    }
  }
}
