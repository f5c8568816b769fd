/** A compound chain against the same commands sent one at a time (internal/smb/server.go): a client
    that has no compounding fills in by hand the session, the tree and the FileId it learnt from
    earlier replies, and gets the same replies and leaves the connection in the same state.
  */
module Sequential {
  import opened Bytes
  import opened Signing
  import opened Compound

  // ----- the stand-alone form of a command -----

  function ClearRelatedAndSigned(flags: u32): u32 {
    flags - (if flags / 4 % 2 == 1 then 4 else 0) - (if flags / 8 % 2 == 1 then 8 else 0)
  }

  /** A header for the command on its own: no NextCommand, neither related nor signed, and where it
      was related, with the chain's session and tree written in. */
  function AloneHeader(h: Header, ctx: Ctx): Header {
    var c := Enter(ctx, Read(h));
    Put(Put(Put(Put(h, 16, Le(ClearRelatedAndSigned(Flags(h)), 4)), 20, Le(0, 4)), 36, Le(c.tree, 4)), 40, Le(c.session, 8))
  }

  /** A segment as a message of its own, with the chain's FileId where a related command has one. */
  function Alone(seg: Segment, ctx: Ctx): (m: bytes)
    ensures |m| == |seg.data|
  {
    var q := Read(seg.h);
    AloneHeader(seg.h, ctx) + SubstituteIf(q, seg.data[HEADER..], Enter(ctx, q))
  }

  /** The same, on the fields. */
  function AloneRequest(q: Request, ctx: Ctx): Request {
    var c := Enter(ctx, q);
    q.(related := false, signed := false, treeId := c.tree, sessionId := c.session)
  }

  /** What a client without compounding knows after a reply: the reply's own session and tree, and the
      FileId of the last CREATE that succeeded. */
  function Learn(ctx: Ctx, sent: Request, reply: Option<Reply>): Ctx {
    match reply
    case None => ctx.(session := sent.sessionId, tree := sent.treeId)
    case Some(r) =>
      var p := Serialize(r);
      var made := sent.code == CREATE && U32At(p, 8) == SUCCESS && |p| >= HEADER + 80;
      Ctx(if made then Some(p[HEADER..][64..80]) else ctx.fileId, U64At(p, 40), U32At(p, 36))
  }

  /** The commands one at a time, each as a message of its own that the server takes from scratch. */
  function OneByOne<S>(m: Machine<S>, s: S, ctx: Ctx, segs: seq<Segment>): Run<S>
    decreases |segs|
  {
    if segs == [] then Run(s, ctx, [])
    else
      var sent := Alone(segs[0], ctx);
      var one := Process(m, s, FRESH, Segments(sent));
      var reply := if one.pdus == [] then None else Some(one.pdus[0]);
      var rest := OneByOne(m, one.state, Learn(ctx, Read(sent[..HEADER]), reply), segs[1..]);
      Run(rest.state, rest.ctx, one.pdus + rest.pdus)
  }

  // ----- when the two agree -----

  /** SESSION_SETUP is the one handler that looks at the session id of its own header even inside a
      chain. */
  predicate OwnSession(ctx: Ctx, q: Request) {
    q.code == SESSION_SETUP && q.related ==> q.sessionId == ctx.session
  }

  /** Every command of the chain passes its signature check, if it is signed, when its turn comes, and
      none is a related SESSION_SETUP with a session of its own. */
  ghost predicate Orderly<S>(m: Machine<S>, s: S, ctx: Ctx, segs: seq<Segment>)
    decreases |segs|
  {
    segs == [] ||
    (var q, seg := Read(segs[0].h), segs[0].data;
    var d := Command(m, s, ctx, q, seg);
    && SignatureOk(m, s, q, seg)
    && OwnSession(ctx, q)
    && Orderly(m, d.state, d.ctx, segs[1..]))
  }

  // ----- one command -----

  lemma FieldIs(b: bytes, off: nat, f: bytes)
    requires off + |f| <= |b| && forall i :: 0 <= i < |f| ==> b[off + i] == f[i]
    ensures Field(b, off, |f|) == f
  {
  }

  /** The four fields that differ. */
  lemma AloneWrites(h: Header, ctx: Ctx)
    ensures var c, b := Enter(ctx, Read(h)), AloneHeader(h, ctx);
      && Flags(b) == ClearRelatedAndSigned(Flags(h)) && NextCommand(b) == 0
      && U32At(b, 36) == c.tree && U64At(b, 40) == c.session
  {
    var c, flags, b := Enter(ctx, Read(h)), ClearRelatedAndSigned(Flags(h)), AloneHeader(h, ctx);
    Le32(flags);
    Le32(0);
    Le32(c.tree);
    Le64(c.session);
    FieldIs(b, 16, Le(flags, 4));
    FieldIs(b, 20, Le(0, 4));
    FieldIs(b, 36, Le(c.tree, 4));
    FieldIs(b, 40, Le(c.session, 8));
  }

  /** The rest of the header. */
  lemma AloneKeeps(h: Header, ctx: Ctx)
    ensures var b := AloneHeader(h, ctx);
      && b[..4] == h[..4] && Field(b, 6, 2) == Field(h, 6, 2) && Field(b, 12, 2) == Field(h, 12, 2)
      && Field(b, 14, 2) == Field(h, 14, 2) && Field(b, 24, 8) == Field(h, 24, 8)
  {
    var b := AloneHeader(h, ctx);
    FieldIs(b, 6, Field(h, 6, 2));
    FieldIs(b, 12, Field(h, 12, 2));
    FieldIs(b, 14, Field(h, 14, 2));
    FieldIs(b, 24, Field(h, 24, 8));
  }

  lemma BitsCleared(flags: u32)
    ensures !IsRelated(ClearRelatedAndSigned(flags)) && !IsSigned(ClearRelatedAndSigned(flags))
  {
  }

  lemma AloneReads(h: Header, ctx: Ctx)
    ensures Read(AloneHeader(h, ctx)) == AloneRequest(Read(h), ctx)
    ensures NextCommand(AloneHeader(h, ctx)) == 0
  {
    AloneWrites(h, ctx);
    AloneKeeps(h, ctx);
    BitsCleared(Flags(h));
  }

  lemma AloneIsOneSegment(seg: Segment, ctx: Ctx)
    requires ParseHeader(seg.data) == Some(seg.h)
    ensures Segments(Alone(seg, ctx)) == [Segment(AloneHeader(seg.h, ctx), Alone(seg, ctx))]
    ensures Alone(seg, ctx)[..HEADER] == AloneHeader(seg.h, ctx)
    ensures Alone(seg, ctx)[HEADER..] == SubstituteIf(Read(seg.h), seg.data[HEADER..], Enter(ctx, Read(seg.h)))
  {
    var b, b' := Alone(seg, ctx), AloneHeader(seg.h, ctx);
    AloneReads(seg.h, ctx);
    AloneKeeps(seg.h, ctx);
    assert b[..HEADER] == b';
    assert b[..4] == b'[..4] == seg.h[..4] == seg.data[..4];
    assert Field(b, 20, 4) == Field(b', 20, 4);
  }

  /** Running a command with the chain's FileId remembered or forgotten differs only in what is
      remembered afterwards. */
  ghost predicate SameButFileId<S>(d: Done<S>, e: Done<S>) {
    d.state == e.state && d.pdu == e.pdu && d.ctx.session == e.ctx.session && d.ctx.tree == e.ctx.tree
  }

  /** A command alone, on its fields: the connection does the same and gives the same reply. */
  lemma ExecuteAlone<S>(m: Machine<S>, s: S, ctx: Ctx, q: Request, body: bytes)
    requires OwnSession(ctx, q)
    ensures var q' := AloneRequest(q, ctx);
      SameButFileId(Execute(m, s, Enter(ctx, q), q, body), Execute(m, s, Enter(FRESH, q'), q', body))
  {
  }

  lemma LearnFromReply(ctx: Ctx, sent: Request, r: Reply)
    ensures Learn(ctx, sent, Some(r))
      == Ctx(if sent.code == CREATE && r.status == SUCCESS && |r.body| >= 80 then Some(r.body[64..80]) else ctx.fileId,
        r.session, r.tree)
  {
    ResponseFields(r);
  }

  /** What the client learns from a reply is what the chain remembers. */
  lemma LearntIsRemembered<S>(m: Machine<S>, s: S, ctx: Ctx, q: Request, seg: bytes)
    requires |seg| >= HEADER
    ensures var d := Command(m, s, ctx, q, seg); Learn(ctx, AloneRequest(q, ctx), d.pdu) == d.ctx
  {
    var d := Command(m, s, ctx, q, seg);
    if d.pdu.Some? { LearnFromReply(ctx, AloneRequest(q, ctx), d.pdu.value); }
  }

  lemma CommandAlone<S>(m: Machine<S>, s: S, ctx: Ctx, q: Request, seg: bytes, alone: bytes)
    requires |seg| >= HEADER && |alone| >= HEADER
    requires alone[HEADER..] == SubstituteIf(q, seg[HEADER..], Enter(ctx, q))
    requires SignatureOk(m, s, q, seg) && OwnSession(ctx, q)
    ensures SameButFileId(Command(m, s, ctx, q, seg), Command(m, s, FRESH, AloneRequest(q, ctx), alone))
  {
    ExecuteAlone(m, s, ctx, q, alone[HEADER..]);
  }

  lemma ProcessOne<S>(m: Machine<S>, s: S, ctx: Ctx, seg: Segment)
    ensures var d := Command(m, s, ctx, Read(seg.h), seg.data);
      Process(m, s, ctx, [seg]) == Run(d.state, d.ctx, Listed(d.pdu))
  {
    var d := Command(m, s, ctx, Read(seg.h), seg.data);
    assert Listed(d.pdu) + [] == Listed(d.pdu);
  }

  // ----- the chain -----

  /** A compound chain refines its commands sent alone: same connection state, same replies (status,
      ids, body, byte for byte), same knowledge. */
  lemma {:induction false} ChainIsSequential<S>(m: Machine<S>, s: S, ctx: Ctx, segs: seq<Segment>)
    requires forall g :: g in segs ==> ParseHeader(g.data) == Some(g.h)
    requires Orderly(m, s, ctx, segs)
    ensures OneByOne(m, s, ctx, segs) == Process(m, s, ctx, segs)
    decreases |segs|
  {
    if segs != [] {
      var seg := segs[0];
      assert seg in segs;
      var q := Read(seg.h);
      var d := Command(m, s, ctx, q, seg.data);
      AloneIsOneSegment(seg, ctx);
      AloneReads(seg.h, ctx);
      CommandAlone(m, s, ctx, q, seg.data, Alone(seg, ctx));
      LearntIsRemembered(m, s, ctx, q, seg.data);
      ProcessOne(m, s, FRESH, Segment(AloneHeader(seg.h, ctx), Alone(seg, ctx)));
      ChainIsSequential(m, d.state, d.ctx, segs[1..]);
    }
  }

  lemma {:induction false} SegmentsParse(msg: bytes)
    ensures forall g :: g in Segments(msg) ==> ParseHeader(g.data) == Some(g.h)
    decreases |msg|
  {
    var h := ParseHeader(msg);
    if h.Some? && HEADER <= NextCommand(h.value) <= |msg| {
      SegmentsParse(msg[NextCommand(h.value)..]);
      CutKeepsHeader(msg, NextCommand(h.value));
    }
  }

  lemma CutKeepsHeader(msg: bytes, n: nat)
    requires HEADER <= n <= |msg|
    ensures ParseHeader(msg[..n]) == ParseHeader(msg)
  {
    assert msg[..n][..4] == msg[..4] && msg[..n][..HEADER] == msg[..HEADER];
  }

  /** On a whole message: what the connection does with it is the run of its commands sent alone, with
      their replies put into one response. */
  lemma MessageIsSequential<S>(m: Machine<S>, s: S, msg: bytes)
    requires !LooksLikeSmb1(msg) && ParseHeader(msg).Some?
    requires Orderly(m, s, FRESH, Segments(msg))
    ensures var r := OneByOne(m, s, FRESH, Segments(msg));
      Dispatch(m, s, msg) == (r.state, Answer(Response(m.signer(r.state), SerializeAll(r.pdus))))
  {
    SegmentsParse(msg);
    ChainIsSequential(m, s, FRESH, Segments(msg));
  }

  /** The FileId a chain inherits is the one the successful CREATE made, create contexts or not. */
  lemma CreateIsInherited<S>(m: Machine<S>, s: S, ctx: Ctx, q: Request, seg: bytes)
    requires |seg| >= HEADER && q.code == CREATE
    requires !Gated(m, s, q, Enter(ctx, q).session) && SignatureOk(m, s, q, seg)
    ensures var c, d := Enter(ctx, q), Command(m, s, ctx, q, seg);
      if m.isPipe(s, c.tree) then d.ctx.fileId == ctx.fileId && d.state == s
      else match m.create(s, c.tree, seg[HEADER..]).1
        case Success(o) => d.ctx.fileId == Some(o.fileId)
        case Refused(_) => d.ctx.fileId == ctx.fileId
  {
    var c := Enter(ctx, q);
    assert SubstituteIf(q, seg[HEADER..], c) == seg[HEADER..];
    if !m.isPipe(s, c.tree) {
      match m.create(s, c.tree, seg[HEADER..]).1
      case Success(o) => FileIdOfCreate(o);
      case Refused(_) =>
    }
  }

  /** The FileId a command makes: that of a CREATE which was let through and which the handler says succeeded. */
  function MadeBy<S>(m: Machine<S>, s: S, ctx: Ctx, q: Request, seg: bytes): Option<FileId>
    requires |seg| >= HEADER
  {
    var c := Enter(ctx, q);
    if q.code != CREATE || Gated(m, s, q, c.session) || !SignatureOk(m, s, q, seg) || m.isPipe(s, c.tree) then None
    else match m.create(s, c.tree, seg[HEADER..]).1
      case Success(o) => Some(o.fileId)
      case Refused(_) => None
  }

  /** The FileId of the last CREATE of a chain that succeeded, or `last` if none did. */
  function LastMade<S>(m: Machine<S>, s: S, ctx: Ctx, segs: seq<Segment>, last: Option<FileId>): Option<FileId>
    decreases |segs|
  {
    if segs == [] then last
    else
      var q, seg := Read(segs[0].h), segs[0].data;
      var d, made := Command(m, s, ctx, q, seg), MadeBy(m, s, ctx, q, seg);
      LastMade(m, d.state, d.ctx, segs[1..], if made.Some? then made else last)
  }

  lemma CommandInherits<S>(m: Machine<S>, s: S, ctx: Ctx, q: Request, seg: bytes)
    requires |seg| >= HEADER
    ensures var made := MadeBy(m, s, ctx, q, seg);
      Command(m, s, ctx, q, seg).ctx.fileId == if made.Some? then made else ctx.fileId
  {
    if q.code == CREATE && !Gated(m, s, q, Enter(ctx, q).session) && SignatureOk(m, s, q, seg) {
      CreateIsInherited(m, s, ctx, q, seg);
    }
  }

  /** What a chain hands on is the FileId of its last successful CREATE, whatever else succeeds or fails. */
  lemma {:induction false} LastCreateIsInherited<S>(m: Machine<S>, s: S, ctx: Ctx, segs: seq<Segment>)
    ensures Process(m, s, ctx, segs).ctx.fileId == LastMade(m, s, ctx, segs, ctx.fileId)
    decreases |segs|
  {
    if segs != [] {
      var q, seg := Read(segs[0].h), segs[0].data;
      var d := Command(m, s, ctx, q, seg);
      CommandInherits(m, s, ctx, q, seg);
      LastCreateIsInherited(m, d.state, d.ctx, segs[1..]);
    }
  }

  // ----- the one exception -----

  /** A connection whose SESSION_SETUP simply adopts the session id it is shown. */
  function Adopting(): Machine<u64> {
    Machine((s, id) => true, s => None, (s, tree) => false,
      (s, body) => (s, SUCCESS, []),
      (s, id, body) => (id, SUCCESS, id, []),
      (s, body) => (s, SUCCESS, 1, []),
      (s, tree) => s,
      (s, tree, body) => (s, Refused(ACCESS_DENIED)),
      (s, command, body) => (s, SUCCESS, []),
      [])
  }

  /** A single command agrees with its stand-alone form, on every connection that accepts its
      signature, exactly when it is not a related SESSION_SETUP showing a session of its own. */
  lemma AgreesExactlyWithoutOwnSession(seg: Segment, ctx: Ctx)
    requires ParseHeader(seg.data) == Some(seg.h)
    ensures (forall m: Machine<u64>, s: u64 | SignatureOk(m, s, Read(seg.h), seg.data) ::
      OneByOne(m, s, ctx, [seg]) == Process(m, s, ctx, [seg])) <==> OwnSession(ctx, Read(seg.h))
  {
    if OwnSession(ctx, Read(seg.h)) {
      forall m: Machine<u64>, s: u64 | SignatureOk(m, s, Read(seg.h), seg.data)
        ensures OneByOne(m, s, ctx, [seg]) == Process(m, s, ctx, [seg])
      {
        ChainIsSequential(m, s, ctx, [seg]);
      }
    } else {
      var m, s: u64 := Adopting(), 0;
      var sent := Segment(AloneHeader(seg.h, ctx), Alone(seg, ctx));
      AloneIsOneSegment(seg, ctx);
      AloneReads(seg.h, ctx);
      ProcessOne(m, s, ctx, seg);
      ProcessOne(m, s, FRESH, sent);
      assert Process(m, s, ctx, [seg]).state == Read(seg.h).sessionId;
      assert OneByOne(m, s, ctx, [seg]).state == ctx.session;
      assert SignatureOk(m, s, Read(seg.h), seg.data);
    }
  }
}
