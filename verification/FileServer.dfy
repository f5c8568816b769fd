/** The compound machine serving the files of a handle table: CREATE and CLOSE of Handles behind the commands of
    Compound, with every other handler left open. */
module FileServer {
  import opened Bytes
  import opened Signing
  import opened Compound
  import Sequential
  import H = Handles

  /** What a connection knows of files. */
  datatype Files = Files(disk: map<u32, H.Share>, pipes: set<u32>, table: H.Table, counter: nat, log: H.Log)

  /** The backend, how a name becomes a path, and the parts of replies that are not followed here: the
      attributes in a CREATE response and the body of a CLOSE response. */
  datatype World = World(
    oracle: H.Oracle, toPath: bytes -> H.Path, describe: H.Made -> Opened, closing: (u32, H.Log) -> Body)

  /** bufferAt: a part of the body by its offset from the header, empty when it is not there. */
  function BufferAt(body: bytes, offset: u16, length: u16): bytes {
    if length == 0 || offset < HEADER || offset - HEADER + length > |body| then []
    else body[offset - HEADER..][..length]
  }

  function CreateRequestOf(w: World, tree: u32, body: bytes): H.CreateRequest
    requires |body| >= 56
  {
    H.CreateRequest(tree, U32At(body, 24), U32At(body, 36), U32At(body, 40),
      w.toPath(BufferAt(body, U16At(body, 44), U16At(body, 46))))
  }

  function CreateMade(w: World, s: Files, tree: u32, body: bytes): H.Made
    requires |body| >= 56
  {
    H.CreateOn(w.oracle, s.disk, s.pipes, CreateRequestOf(w, tree, body), s.log, s.table, s.counter)
  }

  /** A CREATE body ([MS-SMB2] section 2.2.13): access at 24, disposition at 36, options at 40, and the name where 44
      and 46 say, counted from the header. */
  lemma CreateBodyIsRead(w: World, tree: u32, body: bytes, name: bytes, at: nat)
    requires |body| >= 56 && name != [] && |name| < 0x1_0000 && at + 64 < 0x1_0000
    requires at + |name| <= |body| && body[at..at + |name|] == name
    requires U16At(body, 44) == at + 64 && U16At(body, 46) == |name|
    ensures CreateRequestOf(w, tree, body)
      == H.CreateRequest(tree, U32At(body, 24), U32At(body, 36), U32At(body, 40), w.toPath(name))
  {
    assert body[at..][..|name|] == body[at..at + |name|];
  }

  lemma NameOutOfBounds(w: World, tree: u32, body: bytes)
    requires |body| >= 56
    requires U16At(body, 44) < 64 || U16At(body, 46) == 0 || U16At(body, 44) - 64 + U16At(body, 46) > |body|
    ensures CreateRequestOf(w, tree, body).path == w.toPath([])
  {
  }

  /** handleCreate on a body as it arrives. */
  function Create(w: World, s: Files, tree: u32, body: bytes): (Files, CreateReply) {
    if |body| < 56 then (s, Refused(H.INVALID_PARAMETER))
    else
      var made := CreateMade(w, s, tree, body);
      (s.(table := made.table, counter := made.counter, log := made.log),
      if made.status != SUCCESS then Refused(made.status)
      else Success(w.describe(made).(fileId := H.FileIdOf(made.counter))))
  }

  /** The answers of CREATE are those of the table; a body too short is a wrong parameter. */
  lemma CreateAnswers(w: World, s: Files, tree: u32, body: bytes)
    ensures |body| < 56 ==> Create(w, s, tree, body) == (s, Refused(0xC000_000D))
    ensures |body| >= 56 ==>
      var made, (s', r) := CreateMade(w, s, tree, body), Create(w, s, tree, body);
      && s' == Files(s.disk, s.pipes, made.table, made.counter, made.log)
      && (r.Refused? <==> made.status != 0) && (r.Refused? ==> r.status == made.status)
      && (r.Success? ==> r.file.fileId == H.FileIdOf(made.counter))
  {
  }

  /** handleClose on a body as it arrives, with the FileId put in. */
  function Close(w: World, s: Files, body: bytes): (Files, u32, Body) {
    if |body| < 24 then (s, H.INVALID_PARAMETER, ERROR_BODY)
    else
      var id, postQuery := Field(body, 8, 16), U16At(body, 2) % 2 == 1;
      if id !in s.table then (s, SUCCESS, w.closing(SUCCESS, s.log))
      else
        var (status, log) := H.Ended(w.oracle, s.table[id], postQuery, s.log);
        (s.(table := s.table - {id}, log := log), status, w.closing(status, log))
  }

  /** The answers of CLOSE: a body too short is a wrong parameter, an unknown FileId a success, and otherwise the
      open is gone and the answer is what ending it gave. */
  lemma CloseAnswers(w: World, s: Files, body: bytes)
    ensures |body| < 24 ==> Close(w, s, body) == (s, 0xC000_000D, ERROR_BODY)
    ensures |body| >= 24 && body[8..24] !in s.table ==> Close(w, s, body).0 == s && Close(w, s, body).1 == 0
    ensures |body| >= 24 && body[8..24] in s.table ==>
      var (s', status, _) := Close(w, s, body);
      && s' == Files(s.disk, s.pipes, s.table - {body[8..24]}, s.counter, s'.log)
      && H.RightlyEnded(w.oracle, s.table[body[8..24]], s.log, s'.log, status)
  {
    if |body| >= 24 && body[8..24] in s.table {
      H.EndedRightly(w.oracle, s.table[body[8..24]], U16At(body, 2) % 2 == 1, s.log);
    }
  }

  /** Any server that keeps its files so. */
  function Serving(w: World, rest: Machine<Files>): Machine<Files> {
    rest.(isPipe := (s: Files, tree: u32) => tree in s.pipes,
      create := (s: Files, tree: u32, body: bytes) => Create(w, s, tree, body),
      other := (s: Files, command: u16, body: bytes) => if command == CLOSE then Close(w, s, body) else rest.other(s, command, body))
  }

  /** A command of the chain is let through. */
  predicate Passes(m: Machine<Files>, s: Files, ctx: Ctx, seg: Segment) {
    !Gated(m, s, Read(seg.h), Enter(ctx, Read(seg.h)).session) && SignatureOk(m, s, Read(seg.h), seg.data)
  }

  /** When the machine says a CREATE made something, the handle table does too, under the key it names. */
  lemma MadeIsInTable(w: World, rest: Machine<Files>, s: Files, ctx: Ctx, seg: Segment)
    requires Sequential.MadeBy(Serving(w, rest), s, ctx, Read(seg.h), seg.data).Some?
    ensures |seg.data[HEADER..]| >= 56
    ensures var made := CreateMade(w, s, Enter(ctx, Read(seg.h)).tree, seg.data[HEADER..]);
      && made.status == SUCCESS && H.FileIdOf(s.counter + 1) in made.table
      && Sequential.MadeBy(Serving(w, rest), s, ctx, Read(seg.h), seg.data) == Some(H.FileIdOf(s.counter + 1))
  {
    var m, tree, body := Serving(w, rest), Enter(ctx, Read(seg.h)).tree, seg.data[HEADER..];
    assert m.create(s, tree, body) == Create(w, s, tree, body);
    H.CreateAddsOneOpen(w.oracle, s.disk, s.pipes, CreateRequestOf(w, tree, body), s.log, s.table, s.counter);
  }

  /** A CREATE that succeeds hands on the key of the open it has put into the table. */
  lemma CreateHandsOnItsKey(w: World, rest: Machine<Files>, s: Files, ctx: Ctx, seg: Segment)
    requires Sequential.MadeBy(Serving(w, rest), s, ctx, Read(seg.h), seg.data).Some?
    ensures |seg.data[HEADER..]| >= 56
    ensures var made := CreateMade(w, s, Enter(ctx, Read(seg.h)).tree, seg.data[HEADER..]);
      var d := Command(Serving(w, rest), s, ctx, Read(seg.h), seg.data);
      && made.status == SUCCESS && d.ctx.fileId == Some(H.FileIdOf(s.counter + 1))
      && d.state == s.(table := made.table, counter := made.counter, log := made.log)
      && H.FileIdOf(s.counter + 1) in made.table
  {
    MadeIsInTable(w, rest, s, ctx, seg);
    Sequential.CommandInherits(Serving(w, rest), s, ctx, Read(seg.h), seg.data);
  }

  /** A related CLOSE ends the open under the key it was handed, whatever FileId its own body shows. */
  lemma CloseEndsItsOpen(w: World, rest: Machine<Files>, s: Files, ctx: Ctx, seg: Segment)
    requires Read(seg.h).code == CLOSE && Read(seg.h).related && Passes(Serving(w, rest), s, ctx, seg)
    requires |seg.data| >= HEADER + 24 && ctx.fileId.Some? && ctx.fileId.value in s.table
    ensures var d := Command(Serving(w, rest), s, ctx, Read(seg.h), seg.data); var id := ctx.fileId.value;
      d.state == s.(table := s.table - {id},
        log := H.Ended(w.oracle, s.table[id], U16At(seg.data[HEADER..], 2) % 2 == 1, s.log).1)
  {
    var q, body, id := Read(seg.h), seg.data[HEADER..], ctx.fileId.value;
    var m, shown := Serving(w, rest), Put(body, 8, id);
    assert SubstituteIf(q, body, Enter(ctx, q)) == shown;
    FieldOfPut(body, 8, id);
    FieldBesidePut(body, 8, id, 2, 2);
    assert m.other(s, CLOSE, shown) == Close(w, s, shown);
  }

  lemma EndedCloses(oracle: H.Oracle, o: H.Open, postQuery: bool, log: H.Log)
    ensures var log' := H.Ended(oracle, o, postQuery, log).1;
      log <= log' && (o.handle.Some? ==> H.Close(o.share, o.handle.value) in log'[|log|..])
  {
    var log' := H.Ended(oracle, o, postQuery, log).1;
    if o.handle.Some? {
      var i := if postQuery && !o.deleteOnClose then |log| + 1 else |log|;
      assert log'[|log|..][i - |log|] == H.Close(o.share, o.handle.value);
    }
  }

  lemma OpenIsNew(w: World, s: Files, tree: u32, body: bytes)
    requires H.Orderly(s.table, s.counter) && s.counter + 1 < 0x1_0000_0000_0000_0000 && |body| >= 56
    requires CreateMade(w, s, tree, body).status == SUCCESS
    ensures var made, id := CreateMade(w, s, tree, body), H.FileIdOf(s.counter + 1);
      && tree in s.disk && id in made.table && made.table - {id} == s.table
      && H.AsAsked(made.table[id], s.disk[tree], CreateRequestOf(w, tree, body), s.counter + 1, made.log)
  {
    var made, id := CreateMade(w, s, tree, body), H.FileIdOf(s.counter + 1);
    H.CreateAddsOneOpen(w.oracle, s.disk, s.pipes, CreateRequestOf(w, tree, body), s.log, s.table, s.counter);
    H.FreshId(s.table, s.counter);
    AddedThenRemoved(s.table, id, made.table[id]);
  }

  /** A chain of a CREATE that succeeds and a related CLOSE, whatever FileId the CLOSE shows, leaves the table as
      it was: the CLOSE ends the very open the CREATE made, and with it the backend handle that was opened for
      it. */
  lemma ChainClosesWhatItCreated(w: World, rest: Machine<Files>, s: Files, ctx: Ctx, a: Segment, b: Segment)
      returns (o: H.Open)
    requires H.Orderly(s.table, s.counter) && s.counter + 1 < 0x1_0000_0000_0000_0000
    requires Sequential.MadeBy(Serving(w, rest), s, ctx, Read(a.h), a.data).Some?
    requires Read(b.h).code == CLOSE && Read(b.h).related && |b.data| >= HEADER + 24
    requires var d := Command(Serving(w, rest), s, ctx, Read(a.h), a.data); Passes(Serving(w, rest), d.state, d.ctx, b)
    ensures |a.data[HEADER..]| >= 56
    ensures var tree := Enter(ctx, Read(a.h)).tree;
      var made := CreateMade(w, s, tree, a.data[HEADER..]);
      var r := Process(Serving(w, rest), s, ctx, [a, b]);
      && r.state.table == s.table && made.log <= r.state.log
      && tree in s.disk
      && H.AsAsked(o, s.disk[tree], CreateRequestOf(w, tree, a.data[HEADER..]), s.counter + 1, made.log)
      && (o.handle.Some? ==> H.Close(o.share, o.handle.value) in r.state.log[|made.log|..])
  {
    var m, tree, body := Serving(w, rest), Enter(ctx, Read(a.h)).tree, a.data[HEADER..];
    var d := Command(m, s, ctx, Read(a.h), a.data);
    CreateHandsOnItsKey(w, rest, s, ctx, a);
    var made, id := CreateMade(w, s, tree, body), H.FileIdOf(s.counter + 1);
    o := made.table[id];
    OpenIsNew(w, s, tree, body);
    CloseEndsItsOpen(w, rest, d.state, d.ctx, b);
    EndedCloses(w.oracle, o, U16At(b.data[HEADER..], 2) % 2 == 1, made.log);
    ProcessTwo(m, s, ctx, a, b);
  }

  lemma AddedThenRemoved(t: H.Table, id: H.FileId, o: H.Open)
    requires id !in t
    ensures t[id := o] - {id} == t
  {
  }

  lemma ProcessTwo<S>(m: Machine<S>, s: S, ctx: Ctx, a: Segment, b: Segment)
    ensures var d := Command(m, s, ctx, Read(a.h), a.data);
      Process(m, s, ctx, [a, b]).state == Command(m, d.state, d.ctx, Read(b.h), b.data).state
  {
    var d := Command(m, s, ctx, Read(a.h), a.data);
    var e := Command(m, d.state, d.ctx, Read(b.h), b.data);
    assert [a, b][1..] == [b] && [b][1..] == [];
    assert Process(m, d.state, d.ctx, [b]) == Run(e.state, e.ctx, Listed(e.pdu) + []);
  }
}
