/** Compound requests (internal/smb/server.go): splitting a message into commands, inheriting session,
    tree and FileId, checking signatures, and answering. The handlers themselves are parameters.
  */
module Compound {
  import opened Bytes
  import opened Signing

  // ----- headers (internal/smb/packet.go) -----

  const MAGIC: bytes := [0xFE, 0x53, 0x4D, 0x42]
  const SMB1MAGIC: bytes := [0xFF, 0x53, 0x4D, 0x42, 0x72]

  /** The 64 bytes of a header. */
  type Header = h: bytes | |h| == HEADER witness Zeros(64)

  /** The fields of a header that the server acts on. */
  datatype Request = Request(creditCharge: u16, code: u16, creditRequest: u16, related: bool, signed: bool,
    messageId: u64, treeId: u32, sessionId: u64)

  predicate IsRelated(flags: u32) { flags / 4 % 2 == 1 }
  predicate IsSigned(flags: u32) { flags / 8 % 2 == 1 }

  function Read(h: Header): Request {
    Request(U16At(h, 6), U16At(h, 12), U16At(h, 14), IsRelated(Flags(h)), IsSigned(Flags(h)),
      U64At(h, 24), U32At(h, 36), U64At(h, 40))
  }

  /** parseHeader */
  function ParseHeader(b: bytes): Option<Header> {
    if |b| < HEADER || b[..4] != MAGIC then None else Some(b[..HEADER])
  }

  /** A header, its fields one behind the other as [MS-SMB2] section 2.2.1 lists them. */
  datatype Fields = Fields(structureSize: bytes, creditCharge: bytes, status: bytes, command: bytes, credits: bytes,
    flags: bytes, nextCommand: bytes, messageId: bytes, reserved: bytes, treeId: bytes, sessionId: bytes,
    signature: bytes)
  {
    predicate Sized() {
      && |structureSize| == |creditCharge| == |command| == |credits| == 2
      && |status| == |flags| == |nextCommand| == |reserved| == |treeId| == 4
      && |messageId| == |sessionId| == 8 && |signature| == 16
    }

    function Before(): bytes { [0xFE, 0x53, 0x4D, 0x42] + structureSize + creditCharge + status + command + credits }
    function Middle(): bytes { flags + nextCommand + messageId }
    function End(): bytes { reserved + treeId + sessionId + signature }
    function Header(): bytes { Before() + Middle() + End() }
  }

  /** It is read for what it says; bit 2 of the flags is "related", bit 3 "signed". */
  lemma HeaderIsRead(f: Fields)
    requires f.Sized()
    ensures |f.Header()| == 64 && ParseHeader(f.Header()) == Some(f.Header())
    ensures NextCommand(f.Header()) == Num4(f.nextCommand)
    ensures Read(f.Header()) == Request(Num2(f.creditCharge), Num2(f.command), Num2(f.credits),
      Num4(f.flags) / 4 % 2 == 1, Num4(f.flags) / 8 % 2 == 1, Num8(f.messageId), Num4(f.treeId), Num8(f.sessionId))
  {
    var h := f.Header();
    assert h[..64] == h;
    FirstFields([0xFE, 0x53, 0x4D, 0x42], f.structureSize, f.creditCharge, f.status, f.command, f.credits, f.Middle() + f.End());
    Assoc(f.Before(), f.Middle(), f.End());
    SecondFields(f.Before(), f.flags, f.nextCommand, f.messageId, f.End());
    ThirdFields(f.Before() + f.Middle(), f.reserved, f.treeId, f.sessionId, f.signature);
  }

  lemma FirstFields(a: bytes, b: bytes, c: bytes, d: bytes, e: bytes, f: bytes, rest: bytes)
    requires |a| == |d| == 4 && |b| == |c| == |e| == |f| == 2
    ensures var h := a + b + c + d + e + f + rest;
      h[..4] == a && Field(h, 6, 2) == c && Field(h, 12, 2) == e && Field(h, 14, 2) == f
  {
  }

  lemma SecondFields(before: bytes, a: bytes, b: bytes, c: bytes, rest: bytes)
    requires |before| == 16 && |a| == |b| == 4 && |c| == 8
    ensures var h := before + (a + b + c) + rest;
      Field(h, 16, 4) == a && Field(h, 20, 4) == b && Field(h, 24, 8) == c
  {
  }

  lemma ThirdFields(before: bytes, a: bytes, b: bytes, c: bytes, d: bytes)
    requires |before| == 32 && |a| == |b| == 4 && |c| == 8
    ensures var h := before + (a + b + c + d); Field(h, 36, 4) == b && Field(h, 40, 8) == c
  {
  }

  /** Anything shorter than 64 bytes or without the protocol's four is no header. */
  lemma HeaderOrNot(b: bytes)
    ensures ParseHeader(b) == if |b| >= 64 && b[..4] == [254, 83, 77, 66] then Some(b[..64]) else None
  {
  }

  const NEGOTIATE: u16 := 0
  const SESSION_SETUP: u16 := 1
  const TREE_CONNECT: u16 := 3
  const TREE_DISCONNECT: u16 := 4
  const CREATE: u16 := 5
  const CLOSE: u16 := 6
  const FLUSH: u16 := 7
  const READ: u16 := 8
  const WRITE: u16 := 9
  const IOCTL: u16 := 11
  const CANCEL: u16 := 12
  const QUERY_DIRECTORY: u16 := 14
  const QUERY_INFO: u16 := 16
  const SET_INFO: u16 := 17

  const SUCCESS: u32 := 0
  const SESSION_DELETED: u32 := 0xC000_0203
  const ACCESS_DENIED: u32 := 0xC000_0022
  const NAME_NOT_FOUND: u32 := 0xC000_0034

  /** A response body short enough for 32-bit lengths. */
  type Body = b: bytes | |b| <= 0xFFFF_FF00 witness []

  const ERROR_BODY: Body := [9, 0, 0, 0, 0, 0, 0, 0, 0]

  /** A response before it becomes bytes: the request fields it echoes, and the rest. */
  datatype Reply = Reply(creditCharge: u16, command: u16, messageId: u64,
    status: u32, session: u64, tree: u32, credits: u16, body: Body)

  function ReplyTo(q: Request, status: u32, session: u64, tree: u32, body: Body): Reply {
    Reply(q.creditCharge, q.code, q.messageId, status, session, tree, Credits(q), body)
  }

  function Credits(q: Request): u16 { if q.creditRequest < 1 then 1 else q.creditRequest }

  /** buildResponse */
  function Serialize(r: Reply): (p: Pdu) {
    MAGIC + Le(64, 2) + Le(r.creditCharge, 2) + Le(r.status, 4) + Le(r.command, 2) + Le(r.credits, 2) + Le(1, 4)
    + Zeros(4) + Le(r.messageId, 8) + Zeros(4) + Le(r.tree, 4) + Le(r.session, 8) + Zeros(16) + r.body
  }

  /** What a client reads in a response. */
  lemma ResponseFields(r: Reply)
    ensures var p := Serialize(r);
      && U32At(p, 8) == r.status && NextCommand(p) == 0 && U32At(p, 36) == r.tree && U64At(p, 40) == r.session
      && p[HEADER..] == r.body
  {
    ResponseIds(r);
    var p := Serialize(r);
    assert Field(p, 8, 4) == Le(r.status, 4);
    assert Field(p, 20, 4) == Le(0, 4) by { assert Le(0, 4) == Zeros(4); }
    Le32(r.status);
    Le32(0);
  }

  lemma ResponseIds(r: Reply)
    ensures var p := Serialize(r); U32At(p, 36) == r.tree && U64At(p, 40) == r.session
  {
    var p := Serialize(r);
    assert Field(p, 36, 4) == Le(r.tree, 4) && Field(p, 40, 8) == Le(r.session, 8);
    Le32(r.tree);
    Le64(r.session);
  }

  /** And what it recognizes its request by, with the credits it is granted. */
  lemma ResponseEchoes(q: Request, status: u32, session: u64, tree: u32, body: Body)
    ensures var p := Serialize(ReplyTo(q, status, session, tree, body));
      && ParseHeader(p) == Some(p[..HEADER])
      && U64At(p, 24) == q.messageId && U16At(p, 12) == q.code && U16At(p, 6) == q.creditCharge
      && U16At(p, 14) == Max(q.creditRequest, 1) && Flags(p) == 1
  {
    var p := Serialize(ReplyTo(q, status, session, tree, body));
    var one: u32 := 1;
    assert p[..4] == MAGIC;
    assert Field(p, 24, 8) == Le(q.messageId, 8) && Field(p, 12, 2) == Le(q.code, 2);
    assert Field(p, 6, 2) == Le(q.creditCharge, 2) && Field(p, 14, 2) == Le(Credits(q), 2);
    assert Field(p, 16, 4) == Le(one, 4);
    Le64(q.messageId);
    Le16(q.code);
    Le16(q.creditCharge);
    Le16(Credits(q));
    Le32(one);
  }

  // ----- the CREATE response (internal/smb/create.go, internal/smb/aapl.go) -----

  type FileId = f: bytes | |f| == 16 witness Zeros(16)

  /** The create contexts of a response: one short blob. */
  type Contexts = c: bytes | |c| <= 0x1_0000 witness []

  datatype Opened = Opened(action: u32, times: u64, size: u64, attrs: u32, fileId: FileId, contexts: Contexts)

  /** buildCreateResp: 89 bytes with the FileId at 64. */
  function CreateBody(o: Opened): (b: bytes)
    ensures |b| == 89
  {
    Le(89, 2) + Zeros(2) + Le(o.action, 4) + Le(o.times, 8) + Le(o.times, 8) + Le(o.times, 8) + Le(o.times, 8)
    + Le(o.size, 8) + Le(o.size, 8) + Le(o.attrs, 4) + Zeros(4) + o.fileId + Zeros(9)
  }

  /** withCreateContexts: the first 88 bytes, the contexts' place and size, and the contexts. */
  function WithContexts(resp: bytes, contexts: Contexts): (b: Body)
    requires |resp| == 89
  {
    if contexts == [] then resp
    else Put(Put(resp[..88], 80, Le(HEADER + 88, 4)), 84, Le(|contexts|, 4)) + contexts
  }

  /** The rest of a CREATE response ([MS-SMB2] section 2.2.14): action at 4, sizes at 40 and 48, attributes at 56;
      and with contexts, their place 152 from the header at 80, their length at 84, and the contexts at 88. */
  lemma CreateFields(o: Opened)
    ensures var b := CreateBody(o);
      U16At(b, 0) == 89 && U32At(b, 4) == o.action && U64At(b, 40) == o.size == U64At(b, 48) && U32At(b, 56) == o.attrs
  {
    var b, fixed := CreateBody(o), 89 as u16;
    assert Field(b, 0, 2) == Le(fixed, 2) && Field(b, 4, 4) == Le(o.action, 4);
    assert Field(b, 40, 8) == Le(o.size, 8) && Field(b, 48, 8) == Le(o.size, 8) && Field(b, 56, 4) == Le(o.attrs, 4);
    Le16(fixed);
    Le32(o.action);
    Le64(o.size);
    Le32(o.attrs);
  }

  lemma ContextFields(resp: bytes, contexts: Contexts)
    requires |resp| == 89
    ensures var b := WithContexts(resp, contexts);
      if contexts == [] then b == resp
      else
        && |b| == 88 + |contexts| && b[..80] == resp[..80] && b[88..] == contexts
        && U32At(b, 80) == 152 && U32At(b, 84) == |contexts|
  {
    if contexts != [] {
      var at: u32 := 152;
      var first := Put(resp[..88], 80, Le(at, 4));
      var head := Put(first, 84, Le(|contexts|, 4));
      FieldOfPut(resp[..88], 80, Le(at, 4));
      FieldOfPut(first, 84, Le(|contexts|, 4));
      FieldBesidePut(first, 84, Le(|contexts|, 4), 80, 4);
      Le32(at);
      Le32(|contexts|);
      var b := WithContexts(resp, contexts);
      assert b == head + contexts;
      assert Field(b, 80, 4) == Field(head, 80, 4) && Field(b, 84, 4) == Field(head, 84, 4);
    }
  }

  lemma FileIdOfCreate(o: Opened)
    ensures var b := WithContexts(CreateBody(o), o.contexts); |b| >= 80 && b[64..80] == o.fileId
  {
  }

  // ----- the machine -----

  /** What the handlers do, on any connection state S. Session and tree ids, where a handler gets them
      from the header or the chain, are explicit. */
  datatype Machine<!S> = Machine(
    /** the session may run commands other than NEGOTIATE and SESSION_SETUP */
    authed: (S, u64) -> bool,
    signer: S -> Option<Signer>,
    isPipe: (S, u32) -> bool,
    negotiate: (S, bytes) -> (S, u32, Body),
    sessionSetup: (S, u64, bytes) -> (S, u32, u64, Body),
    treeConnect: (S, bytes) -> (S, u32, u32, Body),
    treeDisconnect: (S, u32) -> S,
    /** a refusal is a status other than success */
    create: (S, u32, bytes) -> (S, CreateReply),
    /** every other command: CLOSE, READ, WRITE, FLUSH, the queries, IOCTL, LOCK, ECHO, LOGOFF, unknown ones */
    other: (S, u16, bytes) -> (S, u32, Body),
    smb1Reply: bytes)

  type Refusal = s: u32 | s != SUCCESS witness ACCESS_DENIED

  datatype CreateReply = Refused(status: Refusal) | Success(file: Opened)

  /** The part of a chain later commands inherit from. */
  datatype Ctx = Ctx(fileId: Option<FileId>, session: u64, tree: u32)

  const FRESH := Ctx(None, 0, 0)

  /** Where a command keeps its FileId in the body. */
  function FileIdOffset(command: u16): Option<nat> {
    if command == CLOSE || command == FLUSH || command == IOCTL || command == QUERY_DIRECTORY then Some(8)
    else if command == READ || command == WRITE || command == SET_INFO then Some(16)
    else if command == QUERY_INFO then Some(24)
    else None
  }

  function Substitute(command: u16, body: bytes, fileId: FileId): (r: bytes)
    ensures |r| == |body|
  {
    var off := FileIdOffset(command);
    if off.Some? && off.value + 16 <= |body| then Put(body, off.value, fileId) else body
  }

  /** Where the FileId goes, by command: at 8 in CLOSE (6), FLUSH (7), IOCTL (11) and QUERY_DIRECTORY (14), at 16 in
      READ (8), WRITE (9) and SET_INFO (17), at 24 in QUERY_INFO (16); nowhere in any other, nor where it does not
      fit. */
  lemma SubstitutesAt(command: u16, body: bytes, fileId: FileId)
    ensures var at: nat := if command in [6, 7, 11, 14] then 8 else if command in [8, 9, 17] then 16
        else if command == 16 then 24 else |body|;
      Substitute(command, body, fileId) == if at + 16 <= |body| then body[..at] + fileId + body[at + 16..] else body
  {
  }

  /** The result of one command: the new state, the chain's new context and the response, if any. */
  datatype Done<S> = Done(state: S, ctx: Ctx, pdu: Option<Reply>)

  /** The chain context when a command is about to run. */
  function Enter(ctx: Ctx, q: Request): Ctx {
    if q.related then ctx else ctx.(session := q.sessionId, tree := q.treeId)
  }

  predicate Gated<S>(m: Machine<S>, s: S, q: Request, session: u64) {
    q.code != NEGOTIATE && q.code != SESSION_SETUP && !m.authed(s, session)
  }

  /** The signature, if there is one to check, is right on these very bytes. */
  predicate SignatureOk<S>(m: Machine<S>, s: S, q: Request, seg: bytes) {
    m.signer(s).Some? && q.signed ==> Verifies(m.signer(s).value, seg)
  }

  function SubstituteIf(q: Request, body: bytes, ctx: Ctx): (r: bytes)
    ensures |r| == |body|
  {
    if q.related && ctx.fileId.Some? then Substitute(q.code, body, ctx.fileId.value) else body
  }

  /** The switch over commands, on a body whose FileId is in place. */
  function Execute<S>(m: Machine<S>, s: S, ctx: Ctx, q: Request, body: bytes): Done<S> {
    var c := q.code;
    if c == NEGOTIATE then
      var (s', status, resp) := m.negotiate(s, body);
      Done(s', ctx, Some(ReplyTo(q, status, ctx.session, ctx.tree, resp)))
    else if c == SESSION_SETUP then
      var (s', status, session, resp) := m.sessionSetup(s, q.sessionId, body);
      Done(s', ctx.(session := session), Some(ReplyTo(q, status, session, ctx.tree, resp)))
    else if c == TREE_CONNECT then
      var (s', status, tree, resp) := m.treeConnect(s, body);
      Done(s', ctx.(tree := tree), Some(ReplyTo(q, status, ctx.session, tree, resp)))
    else if c == TREE_DISCONNECT then
      Done(m.treeDisconnect(s, ctx.tree), ctx, Some(ReplyTo(q, SUCCESS, ctx.session, ctx.tree, [4, 0, 0, 0])))
    else if c == CANCEL then Done(s, ctx, None)
    else if c == CREATE then ExecuteCreate(m, s, ctx, q, body)
    else
      var (s', status, resp) := m.other(s, c, body);
      Done(s', ctx, Some(ReplyTo(q, status, ctx.session, ctx.tree, resp)))
  }

  function CreateResponse(r: CreateReply): (u32, Body) {
    match r
    case Refused(status) => (status, ERROR_BODY)
    case Success(o) =>
      (SUCCESS, WithContexts(CreateBody(o), o.contexts))
  }

  function ExecuteCreate<S>(m: Machine<S>, s: S, ctx: Ctx, q: Request, body: bytes): Done<S> {
    var (s', r) := if m.isPipe(s, ctx.tree) then (s, Refused(NAME_NOT_FOUND)) else m.create(s, ctx.tree, body);
    var (status, resp) := CreateResponse(r);
    var pdu := ReplyTo(q, status, ctx.session, ctx.tree, resp);
    var fileId := if status == SUCCESS && |resp| >= 80 then Some(resp[64..80]) else ctx.fileId;
    Done(s', ctx.(fileId := fileId), Some(pdu))
  }

  /** handleCommand on a segment as it arrived. */
  function Command<S>(m: Machine<S>, s: S, ctx: Ctx, q: Request, seg: bytes): Done<S>
    requires |seg| >= HEADER
  {
    var c := Enter(ctx, q);
    if Gated(m, s, q, c.session) then
      Done(s, c, Some(ReplyTo(q, SESSION_DELETED, c.session, c.tree, ERROR_BODY)))
    else if !SignatureOk(m, s, q, seg) then
      Done(s, c, Some(ReplyTo(q, ACCESS_DENIED, c.session, c.tree, ERROR_BODY)))
    else Execute(m, s, c, q, SubstituteIf(q, seg[HEADER..], c))
  }

  // ----- which handler a command gets to -----

  /** By command: 0 NEGOTIATE, 1 SESSION_SETUP, 3 TREE_CONNECT, 4 TREE_DISCONNECT, 5 CREATE, 12 CANCEL, which alone has
      no response; all others are one handler's. */
  lemma StatesByCommand<S>(m: Machine<S>, s: S, ctx: Ctx, q: Request, body: bytes)
    ensures var d, c := Execute(m, s, ctx, q, body), q.code;
      && (d.pdu.None? <==> c == 12)
      && d.state ==
        if c == 0 then m.negotiate(s, body).0
        else if c == 1 then m.sessionSetup(s, q.sessionId, body).0
        else if c == 3 then m.treeConnect(s, body).0
        else if c == 4 then m.treeDisconnect(s, ctx.tree)
        else if c == 5 then (if m.isPipe(s, ctx.tree) then s else m.create(s, ctx.tree, body).0)
        else if c == 12 then s
        else m.other(s, c, body).0
  {
  }

  /** The answers, with the session and tree they name: SESSION_SETUP and TREE_CONNECT put in their own, which the
      rest of the chain goes on with. */
  lemma AnswersByCommand<S>(m: Machine<S>, s: S, ctx: Ctx, q: Request, body: bytes)
    requires q.code != 12
    ensures var d, c := Execute(m, s, ctx, q, body), q.code; var r := d.pdu.value;
      && r.session == (if c == 1 then m.sessionSetup(s, q.sessionId, body).2 else ctx.session) == d.ctx.session
      && r.tree == (if c == 3 then m.treeConnect(s, body).2 else ctx.tree) == d.ctx.tree
      && (c != 5 ==> d.ctx.fileId == ctx.fileId)
      && (r.status, r.body) ==
        if c == 0 then (m.negotiate(s, body).1, m.negotiate(s, body).2)
        else if c == 1 then (m.sessionSetup(s, q.sessionId, body).1, m.sessionSetup(s, q.sessionId, body).3)
        else if c == 3 then (m.treeConnect(s, body).1, m.treeConnect(s, body).3)
        else if c == 4 then (0, [4, 0, 0, 0])
        else if c == 5 then
          if m.isPipe(s, ctx.tree) then (0xC000_0034, [9, 0, 0, 0, 0, 0, 0, 0, 0])
          else match m.create(s, ctx.tree, body).1
            case Refused(status) => (status, [9, 0, 0, 0, 0, 0, 0, 0, 0])
            case Success(o) => (SUCCESS, WithContexts(CreateBody(o), o.contexts))
        else (m.other(s, c, body).1, m.other(s, c, body).2)
  {
  }

  // ----- who gets to a handler -----

  /** The session a command runs on: the chain's for a related one, its own otherwise. */
  lemma SessionAndTree(ctx: Ctx, q: Request)
    ensures Enter(ctx, q) == Ctx(ctx.fileId, if q.related then ctx.session else q.sessionId,
      if q.related then ctx.tree else q.treeId)
  {
  }

  const DELETED_REPLY: (u32, Body) := (0xC000_0203, [9, 0, 0, 0, 0, 0, 0, 0, 0])

  /** A command other than NEGOTIATE and SESSION_SETUP on a session that has not authenticated is answered
      STATUS_USER_SESSION_DELETED, and no handler sees it. */
  lemma StrangerIsRefused<S>(m: Machine<S>, s: S, ctx: Ctx, q: Request, seg: bytes)
    requires |seg| >= HEADER && q.code != 0 && q.code != 1
    requires !m.authed(s, if q.related then ctx.session else q.sessionId)
    ensures var d := Command(m, s, ctx, q, seg);
      && d.state == s && d.ctx.fileId == ctx.fileId && d.pdu.Some?
      && (d.pdu.value.status, d.pdu.value.body) == DELETED_REPLY
  {
  }

  /** The segment is signed, the connection has a key, and the signature is not the right one. */
  predicate Forged<S>(m: Machine<S>, s: S, seg: bytes)
    requires |seg| >= HEADER
  {
    && m.signer(s).Some? && U32At(seg, 16) / 8 % 2 == 1
    && var key := m.signer(s).value;
      seg[48..64] != if key.dialect in [0x0300, 0x0302] then key.cmac(Covered(seg)) else key.hmac(Covered(seg))
  }

  /** What gets to its handler is exactly what is let through and, if signed, signed right; the rest is answered
      STATUS_ACCESS_DENIED without touching anything. */
  lemma OthersReachTheirHandler<S>(m: Machine<S>, s: S, ctx: Ctx, seg: bytes)
    requires |seg| >= HEADER
    requires var q := Read(seg[..HEADER]);
      q.code == 0 || q.code == 1 || m.authed(s, if q.related then ctx.session else q.sessionId)
    ensures var q := Read(seg[..HEADER]);
      var d, c := Command(m, s, ctx, q, seg), Enter(ctx, q);
      if Forged(m, s, seg) then
        && d.state == s && d.ctx.fileId == ctx.fileId && d.pdu.Some?
        && d.pdu.value.status == 0xC000_0022 && d.pdu.value.body == [9, 0, 0, 0, 0, 0, 0, 0, 0]
      else
        var body := seg[64..];
        d == Execute(m, s, c, q,
          if U32At(seg, 16) / 4 % 2 == 1 && ctx.fileId.Some? then Substitute(q.code, body, ctx.fileId.value) else body)
  {
    if m.signer(s).Some? { VerifiesExactly(m.signer(s).value, seg); }
    assert Field(seg[..HEADER], 16, 4) == Field(seg, 16, 4);
  }

  // ----- the chain -----

  /** The segments of a message, each with its header; a segment reaches to the next command or, when
      NextCommand is zero or out of range, to the end. */
  datatype AnySegment = Segment(h: Header, data: bytes)

  type Segment = g: AnySegment | |g.data| >= HEADER witness AnySegment.Segment(Zeros(64), Zeros(64))

  function Segments(msg: bytes): (segs: seq<Segment>)
    decreases |msg|
  {
    var h := ParseHeader(msg);
    if h == None then []
    else if HEADER <= NextCommand(h.value) <= |msg| then
      [Segment(h.value, msg[..NextCommand(h.value)])] + Segments(msg[NextCommand(h.value)..])
    else [Segment(h.value, msg)]
  }

  datatype Run<S> = Run(state: S, ctx: Ctx, pdus: seq<Reply>)

  function Listed(p: Option<Reply>): seq<Reply> {
    if p.Some? then [p.value] else []
  }

  /** The commands of a chain, first to last. */
  function Process<S>(m: Machine<S>, s: S, ctx: Ctx, segs: seq<Segment>): Run<S>
    decreases |segs|
  {
    if segs == [] then Run(s, ctx, [])
    else
      var d := Command(m, s, ctx, Read(segs[0].h), segs[0].data);
      var r := Process(m, d.state, d.ctx, segs[1..]);
      Run(r.state, r.ctx, Listed(d.pdu) + r.pdus)
  }

  /** A chain without NEGOTIATE and SESSION_SETUP, on a connection where nobody has authenticated, changes nothing,
      and each of its commands is refused. */
  lemma {:induction false} StrangersChainIsRefused<S(!new)>(m: Machine<S>, s: S, ctx: Ctx, segs: seq<Segment>)
    requires forall id :: !m.authed(s, id)
    requires forall i :: 0 <= i < |segs| ==> Read(segs[i].h).code != 0 && Read(segs[i].h).code != 1
    ensures var r := Process(m, s, ctx, segs);
      && r.state == s && r.ctx.fileId == ctx.fileId && |r.pdus| == |segs|
      && forall i :: 0 <= i < |segs| ==> (r.pdus[i].status, r.pdus[i].body) == DELETED_REPLY
    decreases |segs|
  {
    if segs != [] {
      var q, seg := Read(segs[0].h), segs[0].data;
      StrangerIsRefused(m, s, ctx, q, seg);
      StrangersChainIsRefused(m, s, Command(m, s, ctx, q, seg).ctx, segs[1..]);
    }
  }

  datatype Dispatched = Answer(out: Option<bytes>) | Invalid

  function SerializeAll(pdus: seq<Reply>): (p: seq<Pdu>)
    ensures |p| == |pdus|
  {
    seq(|pdus|, i requires 0 <= i < |pdus| => Serialize(pdus[i]))
  }

  predicate LooksLikeSmb1(msg: bytes) { |msg| >= 5 && msg[..5] == SMB1MAGIC }

  /** dispatch, on the message as it arrived. */
  function Dispatch<S>(m: Machine<S>, s: S, msg: bytes): (S, Dispatched) {
    if LooksLikeSmb1(msg) then (s, Answer(Some(m.smb1Reply)))
    else if ParseHeader(msg) == None then (s, Invalid)
    else
      var r := Process(m, s, FRESH, Segments(msg));
      (r.state, Answer(Response(m.signer(r.state), SerializeAll(r.pdus))))
  }

  /** What is no chain: the old protocol's negotiate is answered, anything else without a header is an error, and
      neither touches the connection. */
  lemma WhatIsNoChain<S>(m: Machine<S>, s: S, msg: bytes)
    ensures |msg| >= 5 && msg[..5] == [255, 83, 77, 66, 114] ==> Dispatch(m, s, msg) == (s, Answer(Some(m.smb1Reply)))
    ensures |msg| < 64 || msg[..4] != [254, 83, 77, 66] ==>
      Dispatch(m, s, msg).0 == s && (Dispatch(m, s, msg).1 == Invalid || (|msg| >= 5 && msg[..5] == [255, 83, 77, 66, 114]))
  {
  }

  /** A chain's response is made with the key the connection has when the chain is done, and there is none when
      nothing in it is answered. */
  lemma WhatAChainAnswers<S>(m: Machine<S>, s: S, msg: bytes)
    requires |msg| >= 64 && msg[..4] == [254, 83, 77, 66]
    ensures var r := Process(m, s, Ctx(None, 0, 0), Segments(msg));
      && Dispatch(m, s, msg).0 == r.state
      && Dispatch(m, s, msg).1 == Answer(Response(m.signer(r.state), SerializeAll(r.pdus)))
      && (Dispatch(m, s, msg).1 == Answer(None) <==> r.pdus == [])
  {
    assert msg[..5][0] == 254;
  }

  /** Where a message is cut: at NextCommand, a multiple of nothing but at least 64 and within the message, and the
      last segment takes all that is left. */
  lemma WhereAMessageIsCut(msg: bytes)
    requires |msg| >= 64 && msg[..4] == [254, 83, 77, 66]
    ensures var next, segs := U32At(msg, 20), Segments(msg);
      && segs != [] && segs[0].h == msg[..64]
      && if 64 <= next <= |msg| then segs[0].data == msg[..next] && segs[1..] == Segments(msg[next..])
        else segs[0].data == msg && |segs| == 1
  {
    assert Field(msg[..64], 20, 4) == Field(msg, 20, 4);
  }

  /** Whatever a chain answered, a client following NextCommand finds the replies in order, each intact
      up to the envelope, and signed when the connection has a key. */
  lemma AnswersAreReadBack(s: Option<Signer>, pdus: seq<Reply>)
    requires pdus != []
    ensures var found := Walk(Response(s, SerializeAll(pdus)).value);
      |found| == |pdus| && forall i :: 0 <= i < |pdus| ==> Carries(s, Serialize(pdus[i]), found[i])
  {
    forall i | 0 <= i < |pdus| ensures NextCommand(SerializeAll(pdus)[i]) == 0 {
      ResponseFields(pdus[i]);
    }
    ResponseIsReadBack(s, SerializeAll(pdus));
  }

  // ----- the connection, working in place on the message -----

  class Conn<!S> {
    const m: Machine<S>
    var st: S
    var ctx: Ctx

    constructor (m: Machine<S>, st: S)
      ensures this.m == m && this.st == st
    {
      this.m, this.st, this.ctx := m, st, FRESH;
    }

    /** substituteFileID on the body in [start + 64, end). */
    method SubstituteFileId(command: u16, msg: array<byte>, start: nat, end: nat, fileId: FileId)
      requires start + HEADER <= end <= msg.Length
      modifies msg
      ensures msg[start + HEADER..end] == Substitute(command, old(msg[start + HEADER..end]), fileId)
      ensures msg[..start + HEADER] == old(msg[..start + HEADER]) && msg[end..] == old(msg[end..])
    {
      var off := FileIdOffset(command);
      if off.Some? && off.value + 16 <= end - start - HEADER {
        var at := start + HEADER + off.value;
        forall i | 0 <= i < 16 { msg[at + i] := fileId[i]; }
      }
    }

    /** handleCommand: the signature is checked before the FileId is put in, and nothing after the
        segment changes. */
    method HandleCommand(q: Request, msg: array<byte>, start: nat, end: nat) returns (pdu: Option<Reply>)
      requires start + HEADER <= end <= msg.Length
      modifies this, msg
      ensures Done(st, ctx, pdu) == Command(m, old(st), old(ctx), q, old(msg[start..end]))
      ensures msg[end..] == old(msg[end..])
    {
      ghost var seg := msg[start..end];
      ctx := Enter(ctx, q);
      if Gated(m, st, q, ctx.session) {
        return Some(ReplyTo(q, SESSION_DELETED, ctx.session, ctx.tree, ERROR_BODY));
      }
      var key := m.signer(st);
      if key.Some? && q.signed {
        var ok := VerifyMessage(key.value, msg, start, end);
        assert msg[..][start..end] == seg;
        if !ok {
          return Some(ReplyTo(q, ACCESS_DENIED, ctx.session, ctx.tree, ERROR_BODY));
        }
      }
      assert msg[..] == old(msg[..]);
      assert msg[start + HEADER..end] == seg[HEADER..];
      if q.related && ctx.fileId.Some? {
        SubstituteFileId(q.code, msg, start, end, ctx.fileId.value);
      }
      var d := Execute(m, st, ctx, q, msg[start + HEADER..end]);
      st, ctx, pdu := d.state, d.ctx, d.pdu;
    }

    /** dispatch: the loop over segments of the message. Every command sees its segment, and checks its
        signature, on the bytes as they arrived, although earlier ones have been changed in place. */
    method DispatchMessage(msg: array<byte>) returns (r: Dispatched)
      modifies this, msg
      ensures (st, r) == Dispatch(m, old(st), old(msg[..]))
    {
      if LooksLikeSmb1(msg[..]) { return Answer(Some(m.smb1Reply)); }
      if ParseHeader(msg[..]) == None { return Invalid; }
      var pdus := RunChain(msg);
      r := Answer(Response(m.signer(st), SerializeAll(pdus)));
    }

    method RunChain(msg: array<byte>) returns (pdus: seq<Reply>)
      modifies this, msg
      ensures Run(st, ctx, pdus) == Process(m, old(st), FRESH, Segments(old(msg[..])))
    {
      pdus, ctx := [], FRESH;
      var offset := 0;
      ghost var arrived := msg[..];
      assert arrived[0..] == arrived;
      while offset + HEADER <= msg.Length
        invariant offset <= msg.Length ==> msg[offset..] == arrived[offset..]
        invariant Process(m, old(st), FRESH, Segments(arrived)) == AheadFrom(m, st, ctx, arrived, offset, pdus)
        decreases msg.Length - offset
      {
        var found, h, end := LocateSegment(msg, offset, arrived);
        if !found { break; }
        OneAhead(m, st, ctx, arrived, offset, h, end, pdus);
        var pdu := HandleCommand(Read(h), msg, offset, end);
        pdus := pdus + Listed(pdu);
        if NextCommand(h) < HEADER { return; }
        offset := offset + NextCommand(h);
        assert offset <= msg.Length ==> msg[offset..] == msg[end..];
      }
      NothingAhead(m, st, ctx, arrived, offset, pdus);
    }

    /** Where the segment at `offset` ends. */
    method LocateSegment(msg: array<byte>, offset: nat, ghost arrived: bytes) returns (found: bool, h: Header, end: nat)
      requires offset + HEADER <= msg.Length == |arrived| && msg[offset..] == arrived[offset..]
      ensures found == ParseHeader(arrived[offset..]).Some?
      ensures found ==>
        && ParseHeader(arrived[offset..]) == Some(h)
        && end == (if NextCommand(h) >= HEADER && offset + NextCommand(h) <= |arrived| then offset + NextCommand(h) else |arrived|)
        && msg[offset..end] == arrived[offset..end] && msg[end..] == arrived[end..]
    {
      var parsed := ParseHeader(msg[offset..]);
      if parsed == None {
        return false, Zeros(64), offset;
      }
      h := parsed.value;
      end := if NextCommand(h) >= HEADER && offset + NextCommand(h) <= msg.Length then offset + NextCommand(h) else msg.Length;
      assert msg[offset..end] == msg[offset..][..end - offset] == arrived[offset..end];
      assert msg[end..] == msg[offset..][end - offset..] == arrived[end..];
      found := true;
    }
  }

  /** The segments from an offset on; none beyond the end. */
  function SegmentsFrom(msg: bytes, offset: nat): (segs: seq<Segment>)
  {
    if offset <= |msg| then Segments(msg[offset..]) else []
  }

  /** The end of a run, when `pdus` have been answered and the segments from `offset` are to come. */
  function AheadFrom<S>(m: Machine<S>, s: S, ctx: Ctx, msg: bytes, offset: nat, pdus: seq<Reply>): Run<S> {
    var r := Process(m, s, ctx, SegmentsFrom(msg, offset));
    Run(r.state, r.ctx, pdus + r.pdus)
  }

  lemma NothingAhead<S>(m: Machine<S>, s: S, ctx: Ctx, msg: bytes, offset: nat, pdus: seq<Reply>)
    requires offset > |msg| || ParseHeader(msg[offset..]) == None
    ensures AheadFrom(m, s, ctx, msg, offset, pdus) == Run(s, ctx, pdus)
  {
    assert pdus + [] == pdus;
  }

  /** The first segment from `offset` on runs from there to `end`. */
  lemma OneAhead<S>(m: Machine<S>, s: S, ctx: Ctx, msg: bytes, offset: nat, h: Header, end: nat, pdus: seq<Reply>)
    requires offset <= |msg| && ParseHeader(msg[offset..]) == Some(h)
    requires end == if NextCommand(h) >= HEADER && offset + NextCommand(h) <= |msg| then offset + NextCommand(h) else |msg|
    ensures offset + HEADER <= end
    ensures var d := Command(m, s, ctx, Read(h), msg[offset..end]);
      AheadFrom(m, s, ctx, msg, offset, pdus) ==
        if NextCommand(h) < HEADER then Run(d.state, d.ctx, pdus + Listed(d.pdu))
        else AheadFrom(m, d.state, d.ctx, msg, offset + NextCommand(h), pdus + Listed(d.pdu))
  {
    SegmentAhead(msg, offset, h, end);
    var d := Command(m, s, ctx, Read(h), msg[offset..end]);
    var tail := TailFrom(msg, offset, h);
    ProcessHead(m, s, ctx, Segment(h, msg[offset..end]), tail);
    Assoc(pdus, Listed(d.pdu), Process(m, d.state, d.ctx, tail).pdus);
    if NextCommand(h) < HEADER {
      assert pdus + Listed(d.pdu) + [] == pdus + Listed(d.pdu);
    }
  }

  /** The segments behind the one at offset. */
  function TailFrom(msg: bytes, offset: nat, h: Header): seq<Segment> {
    if NextCommand(h) < HEADER then [] else SegmentsFrom(msg, offset + NextCommand(h))
  }

  lemma SegmentAhead(msg: bytes, offset: nat, h: Header, end: nat)
    requires offset <= |msg| && ParseHeader(msg[offset..]) == Some(h)
    requires end == if NextCommand(h) >= HEADER && offset + NextCommand(h) <= |msg| then offset + NextCommand(h) else |msg|
    ensures offset + HEADER <= end
    ensures SegmentsFrom(msg, offset) == [Segment(h, msg[offset..end])] + TailFrom(msg, offset, h)
  {
    var rest := msg[offset..];
    assert rest[..end - offset] == msg[offset..end];
    if NextCommand(h) >= HEADER && offset + NextCommand(h) <= |msg| {
      assert rest[NextCommand(h)..] == msg[offset + NextCommand(h)..];
    } else {
      assert rest[..end - offset] == rest && [Segment(h, rest)] + [] == [Segment(h, rest)];
    }
  }

  lemma ProcessHead<S>(m: Machine<S>, s: S, ctx: Ctx, seg: Segment, tail: seq<Segment>)
    ensures var d := Command(m, s, ctx, Read(seg.h), seg.data);
      var r := Process(m, d.state, d.ctx, tail);
      Process(m, s, ctx, [seg] + tail) == Run(r.state, r.ctx, Listed(d.pdu) + r.pdus)
  {
    assert ([seg] + tail)[1..] == tail;
  }
}
