/** The read-ahead window of an open file (internal/httpvfs/httpvfs.go), one caller at a time.

    `Direct` is what a READ means: one request to the provider. `File.ReadAt` serves most reads from
    a window tagged with the filesystem's generation instead; the theorems say when the two agree.
  */
module ReadAhead {
  import opened Bytes

  /** The provider's contents, by path. */
  type World = map<string, bytes>

  /** The longest answer the provider gives to one read: 8 MiB. */
  const CAP: nat := 0x80_0000

  /** What a reader is told: the bytes and whether they end at end-of-file, or a failure. */
  datatype Outcome = Got(data: bytes, eof: bool) | Failed

  /** One /read request for `len` bytes at `off`: the provider cuts the request to CAP and the file
      to its end, and the caller takes any short answer for end-of-file. */
  function Direct(w: World, path: string, off: int, len: nat): (r: Outcome) {
    if path !in w || off < 0 then Failed
    else
      var stop := Min(off + Min(len, CAP), |w[path]|);
      var data := if off < stop then w[path][off..stop] else [];
      Got(data, |data| < len)
  }

  /** The bytes of the file from off on, as many as are asked for but at most 8 MiB and not beyond its end;
      end-of-file is said of any short answer. */
  lemma DirectMeans(w: World, path: string, off: int, len: nat)
    ensures Direct(w, path, off, len).Failed? <==> path !in w || off < 0
    ensures path in w && off >= 0 ==>
      var Got(data, eof) := Direct(w, path, off, len); var left := Max(|w[path]| - off, 0);
      && |data| == (if left < len && left <= 8388608 then left else if len <= 8388608 then len else 8388608)
      && (forall i :: 0 <= i < |data| ==> data[i] == w[path][off + i])
      && (eof <==> |data| < len)
  {
  }

  // ----- mutations -----

  datatype Mutation =
    | Create(path: string, exclusive: bool)
    | Write(path: string, off: int, data: bytes)
    | Truncate(path: string, size: int)
    | Rename(from: string, to: string)
    | Remove(path: string)
    | Mkdir(path: string)
    | Chtimes(path: string, time: int)

  /** How a provider carries out a mutation: None is a refusal, which changes nothing. */
  type Provider = (Mutation, World) -> Option<World>

  /** Making a directory or setting a time leaves every file's bytes alone. Nothing else is assumed
      of a provider. */
  ghost predicate Lawful(apply: Provider) {
    forall m: Mutation, w: World :: (m.Mkdir? || m.Chtimes?) && apply(m, w).Some? ==> apply(m, w).value == w
  }

  /** Which mutations make every window stale once they succeed. */
  predicate Bumps(m: Mutation) { !m.Mkdir? && !m.Chtimes? }

  // ----- the window -----

  /** `Held` keeps the bytes [off, off + |data|) of the file as of generation `gen`. */
  datatype Window = NoWindow | Held(data: bytes, off: int, gen: nat, eof: bool)

  predicate Covers(win: Window, gen: nat, off: int) {
    win.Held? && win.gen == gen && win.off <= off < win.off + |win.data|
  }

  /** A request of this size goes through the window. */
  predicate Windowed(readAhead: int, len: nat) { 0 < readAhead && len < readAhead }

  function Cut(data: bytes, len: nat): (r: Outcome) {
    Got(data[..Min(len, |data|)], |data| < len)
  }

  /** ReadAt on a provider in state `w`: the outcome and the window left behind. */
  function ReadStep(w: World, path: string, readAhead: int, gen: nat, win: Window, off: int, len: nat)
    : (r: (Outcome, Window))
  {
    if !Windowed(readAhead, len) then (Direct(w, path, off, len), win)
    else if Covers(win, gen, off) && (off - win.off + len <= |win.data| || win.eof) then
      (Cut(win.data[off - win.off..], len), win)
    else match Direct(w, path, off, readAhead)
      case Failed => (Failed, win)
      case Got(data, eof) => (Cut(data, len), Held(data, off, gen, eof))
  }

  /** The window holds what one request of window size would bring. */
  ghost predicate Fresh(w: World, path: string, readAhead: int, win: Window)
    requires win.Held?
  {
    0 < readAhead && Direct(w, path, win.off, readAhead) == Got(win.data, win.eof)
  }

  /** A window that carries the current generation is fresh. */
  ghost predicate Honest(w: World, path: string, readAhead: int, gen: nat, win: Window) {
    win.Held? ==> win.gen <= gen && (win.gen == gen ==> Fresh(w, path, readAhead, win))
  }

  /** What a fresh window gives from a position inside it is what the provider would. */
  lemma HitIsDirect(w: World, path: string, readAhead: int, win: Window, off: int, len: nat)
    requires readAhead <= CAP && win.Held? && Fresh(w, path, readAhead, win) && len < readAhead
    requires win.off <= off < win.off + |win.data| && (off - win.off + len <= |win.data| || win.eof)
    ensures Cut(win.data[off - win.off..], len) == Direct(w, path, off, len)
  {
    DirectMeans(w, path, win.off, readAhead);
    DirectMeans(w, path, off, len);
    var cut, direct := Cut(win.data[off - win.off..], len).data, Direct(w, path, off, len).data;
    assert |cut| == |direct|;
    forall i | 0 <= i < |cut| ensures cut[i] == direct[i] {
      assert cut[i] == win.data[off - win.off + i];
    }
  }

  /** And so does a window just filled from that position. */
  lemma FillIsDirect(w: World, path: string, readAhead: int, off: int, len: nat)
    requires 0 < readAhead <= CAP && len < readAhead && Direct(w, path, off, readAhead).Got?
    ensures Cut(Direct(w, path, off, readAhead).data, len) == Direct(w, path, off, len)
  {
    DirectMeans(w, path, off, readAhead);
    DirectMeans(w, path, off, len);
    var cut, direct := Cut(Direct(w, path, off, readAhead).data, len).data, Direct(w, path, off, len).data;
    assert |cut| == |direct|;
  }

  /** A window of at most CAP bytes answers like the provider, and what it leaves is honest again. */
  lemma WindowAnswersLikeProvider(w: World, path: string, readAhead: int, gen: nat, win: Window, off: int, len: nat)
    requires readAhead <= CAP && Honest(w, path, readAhead, gen, win)
    ensures var (out, win') := ReadStep(w, path, readAhead, gen, win, off, len);
      out == Direct(w, path, off, len) && Honest(w, path, readAhead, gen, win')
  {
    if Windowed(readAhead, len) {
      if Covers(win, gen, off) && (off - win.off + len <= |win.data| || win.eof) {
        HitIsDirect(w, path, readAhead, win, off, len);
      } else if Direct(w, path, off, readAhead).Got? {
        FillIsDirect(w, path, readAhead, off, len);
      }
    }
  }

  // ----- whole sequences of reads on an unchanging file -----

  datatype Request = Request(off: int, len: nat)

  function Reads(w: World, path: string, readAhead: int, gen: nat, win: Window, reqs: seq<Request>): (r: seq<Outcome>)
    ensures |r| == |reqs|
    decreases |reqs|
  {
    if reqs == [] then []
    else
      var (out, win') := ReadStep(w, path, readAhead, gen, win, reqs[0].off, reqs[0].len);
      [out] + Reads(w, path, readAhead, gen, win', reqs[1..])
  }

  ghost predicate ReadsAreDirect(w: World, path: string, readAhead: int, reqs: seq<Request>) {
    forall i :: 0 <= i < |reqs| ==>
      Reads(w, path, readAhead, 0, NoWindow, reqs)[i] == Direct(w, path, reqs[i].off, reqs[i].len)
  }

  lemma {:induction false} ReadsFollowProvider(w: World, path: string, readAhead: int, gen: nat, win: Window, reqs: seq<Request>)
    requires readAhead <= CAP && Honest(w, path, readAhead, gen, win)
    ensures forall i :: 0 <= i < |reqs| ==>
      Reads(w, path, readAhead, gen, win, reqs)[i] == Direct(w, path, reqs[i].off, reqs[i].len)
    decreases |reqs|
  {
    if reqs != [] {
      WindowAnswersLikeProvider(w, path, readAhead, gen, win, reqs[0].off, reqs[0].len);
      var (out, win') := ReadStep(w, path, readAhead, gen, win, reqs[0].off, reqs[0].len);
      ReadsFollowProvider(w, path, readAhead, gen, win', reqs[1..]);
    }
  }

  /** A window larger than the provider's cap takes the provider's cut for the end of the file. */
  lemma OversizedWindowCutsFileShort(readAhead: int)
    requires readAhead > CAP
    ensures exists w, path, reqs :: !ReadsAreDirect(w, path, readAhead, reqs)
  {
    var w: World := map["f" := Zeros(CAP + 1)];
    var first, second := Request(0, 1), Request(CAP - 1, 2);
    var reqs := [first, second];
    var win := ReadStep(w, "f", readAhead, 0, NoWindow, 0, 1).1;
    assert win.Held? && |win.data| == CAP && win.eof;
    var got := ReadStep(w, "f", readAhead, 0, win, CAP - 1, 2).0;
    assert |got.data| == 1;
    assert |Direct(w, "f", CAP - 1, 2).data| == 2;
    assert reqs[1..] == [second];
    assert Reads(w, "f", readAhead, 0, NoWindow, reqs)[1] == Reads(w, "f", readAhead, 0, win, [second])[0] == got;
    assert !ReadsAreDirect(w, "f", readAhead, reqs);
  }

  /** Reads through the window are direct reads, for every file and every sequence of requests,
      exactly when the window is no larger than the provider's cap. */
  lemma WindowIsTransparentUpToCap(readAhead: int)
    ensures (forall w, path, reqs :: ReadsAreDirect(w, path, readAhead, reqs)) <==> readAhead <= CAP
  {
    if readAhead <= CAP {
      forall w, path, reqs ensures ReadsAreDirect(w, path, readAhead, reqs) {
        ReadsFollowProvider(w, path, readAhead, 0, NoWindow, reqs);
      }
    } else {
      OversizedWindowCutsFileShort(readAhead);
    }
  }

  // ----- the objects -----

  /** The os.OpenFile flags the adapter looks at; `write` stands for O_WRONLY, O_RDWR and O_APPEND. */
  datatype OpenFlags = OpenFlags(write: bool, create: bool, excl: bool, trunc: bool) {
    predicate WriteIntent() { write || create || trunc }
  }

  /** The filesystem: the provider behind it and the generation counter. */
  class FS {
    const readAhead: int
    const readOnly: bool
    const apply: Provider
    var world: World
    var gen: nat

    constructor (readAhead: int, readOnly: bool, apply: Provider, world: World)
      ensures this.readAhead == readAhead && this.readOnly == readOnly && this.apply == apply
      ensures this.world == world && gen == 0
    {
      this.readAhead, this.readOnly, this.apply, this.world, gen := readAhead, readOnly, apply, world, 0;
    }

    /** One mutating request: the generation moves exactly when the request succeeds and can change
        file contents. */
    method Mutate(m: Mutation) returns (ok: bool)
      requires Lawful(apply)
      modifies this
      ensures ok == apply(m, old(world)).Some?
      ensures world == if ok then apply(m, old(world)).value else old(world)
      ensures gen == if ok && !m.Mkdir? && !m.Chtimes? then old(gen) + 1 else old(gen)
      ensures world != old(world) ==> gen > old(gen)
    {
      var done := apply(m, world);
      if done == None { return false; }
      world := done.value;
      if Bumps(m) { gen := gen + 1; }
      return true;
    }

    /** OpenFile: creating and truncating are mutations of their own, so a failed truncation leaves
        the file created; opening without creating asks that the path be a file. (The world holds files
        only: a folder is not in it, and neither is a missing path.) */
    method OpenFile(path: string, flags: OpenFlags) returns (f: Option<File>)
      requires Lawful(apply)
      modifies this
      ensures readOnly && (flags.write || flags.create || flags.trunc) ==> f == None && world == old(world) && gen == old(gen)
      ensures !flags.create && !flags.trunc ==>
        world == old(world) && gen == old(gen) && (f.Some? <==> path in world && !(readOnly && flags.write))
      ensures !flags.create && path !in old(world) ==> f == None && world == old(world) && gen == old(gen)
      ensures !(readOnly && (flags.write || flags.create || flags.trunc)) && (flags.create || path in old(world)) ==>
        var created := if flags.create then apply(Create(path, flags.excl), old(world)) else Some(old(world));
        && (created == None ==> f == None && world == old(world))
        && (created.Some? ==>
          var cut := if flags.trunc then apply(Truncate(path, 0), created.value) else created;
          f.Some? == cut.Some? && world == cut.GetOr(created.value))
      ensures world != old(world) ==> gen > old(gen)
      ensures f.Some? ==> fresh(f.value) && f.value.fs == this && f.value.path == path && f.value.Valid()
    {
      if readOnly && flags.WriteIntent() { return None; }
      if flags.create {
        var ok := Mutate(Create(path, flags.excl));
        if !ok { return None; }
      } else if path !in world {
        return None;
      }
      if flags.trunc {
        var ok := Mutate(Truncate(path, 0));
        if !ok { return None; }
      }
      var h := new File(this, path);
      return Some(h);
    }
  }

  /** An open file: a path and a window. */
  class File {
    const fs: FS
    const path: string
    var win: Window

    ghost predicate Valid()
      reads this, fs
    {
      Honest(fs.world, path, fs.readAhead, fs.gen, win)
    }

    constructor (fs: FS, path: string)
      ensures this.fs == fs && this.path == path && win == NoWindow && Valid()
    {
      this.fs, this.path, win := fs, path, NoWindow;
    }

    /** fetch: one request for exactly the bytes asked, into the front of p. */
    method Fetch(p: array<byte>, off: int) returns (n: nat, out: Outcome)
      modifies p
      ensures out == Direct(fs.world, path, off, p.Length)
      ensures n <= p.Length && (out.Got? ==> p[..n] == out.data)
      ensures p[n..] == old(p[n..])
    {
      out := Direct(fs.world, path, off, p.Length);
      if out == Failed { return 0, out; }
      n := |out.data|;
      CopyInto(p, out.data);
    }

    /** ReadAt: from the window where it reaches, else a fresh window, else a direct request. */
    method ReadAt(p: array<byte>, off: int) returns (n: nat, out: Outcome)
      modifies this, p
      ensures (out, win) == ReadStep(fs.world, path, fs.readAhead, fs.gen, old(win), off, p.Length)
      ensures n <= p.Length && (out.Got? ==> p[..n] == out.data) && (out == Failed ==> n == 0)
      ensures old(Valid()) && fs.readAhead <= CAP ==> Valid() && out == Direct(fs.world, path, off, p.Length)
    {
      if fs.readAhead <= CAP && Valid() {
        WindowAnswersLikeProvider(fs.world, path, fs.readAhead, fs.gen, win, off, p.Length);
      }
      if fs.readAhead <= 0 || p.Length >= fs.readAhead {
        n, out := Fetch(p, off);
        if out == Failed { n := 0; }
      } else {
        n, out := ReadWindowed(p, off);
      }
    }

    /** The part of ReadAt that runs with the handle's mutex held. */
    method ReadWindowed(p: array<byte>, off: int) returns (n: nat, out: Outcome)
      requires Windowed(fs.readAhead, p.Length)
      modifies this, p
      ensures (out, win) == ReadStep(fs.world, path, fs.readAhead, fs.gen, old(win), off, p.Length)
      ensures n <= p.Length && (out.Got? ==> p[..n] == out.data) && (out == Failed ==> n == 0)
    {
      if win.Held? && win.gen == fs.gen && off >= win.off && off < win.off + |win.data| {
        var rest := win.data[off - win.off..];
        n := Min(p.Length, |rest|);
        CopyInto(p, rest[..n]);
        if n == p.Length { return n, Got(rest[..n], false); }
        if win.eof { return n, Got(rest[..n], true); }
      }
      var buf := new byte[fs.readAhead](_ => 0);
      var k, got := Fetch(buf, off);
      if got == Failed { return 0, Failed; }
      win := Held(buf[..k], off, fs.gen, got.eof);
      n := Min(p.Length, k);
      CopyInto(p, win.data[..n]);
      out := Got(win.data[..n], n < p.Length);
    }

    /** WriteAt: the request, then the bump, then the handle's own window is dropped; only then does the
        caller learn whether the reply to a request that was accepted makes sense. `told` is how much the
        reply says was written, None when it cannot be read. */
    method WriteAt(data: bytes, off: int, told: Option<int>) returns (ok: bool)
      requires Lawful(fs.apply)
      modifies this, fs
      ensures var done := fs.apply(Write(path, off, data), old(fs.world));
        && ok == (done.Some? && told == Some(|data|))
        && fs.world == done.GetOr(old(fs.world))
        && fs.gen == old(fs.gen) + (if done.Some? then 1 else 0)
        && win == if done.Some? then NoWindow else old(win)
      ensures old(Valid()) ==> Valid()
    {
      ok := fs.Mutate(Write(path, off, data));
      if !ok { return; }
      win := NoWindow;
      ok := told == Some(|data|);
    }
  }

  /** copy(p, data). */
  method CopyInto(p: array<byte>, data: bytes)
    requires |data| <= p.Length
    modifies p
    ensures p[..|data|] == data && p[|data|..] == old(p[|data|..])
  {
    forall i | 0 <= i < |data| { p[i] := data[i]; }
  }

  // ----- whole runs over many handles -----

  datatype Call =
    | Read(handle: nat, off: int, len: nat)
    | WriteCall(handle: nat, off: int, data: bytes, told: Option<int>)
    | Other(m: Mutation)

  function After(apply: Provider, w: World, m: Mutation): World {
    apply(m, w).GetOr(w)
  }

  /** What the provider alone answers to a call, and the contents it leaves. */
  function Told(w: World, paths: seq<string>, call: Call): seq<Outcome>
    requires !call.Other? ==> call.handle < |paths|
  {
    if call.Read? then [Direct(w, paths[call.handle], call.off, call.len)] else []
  }

  function Left(apply: Provider, w: World, paths: seq<string>, call: Call): World
    requires !call.Other? ==> call.handle < |paths|
  {
    if call.WriteCall? then After(apply, w, Write(paths[call.handle], call.off, call.data))
    else if call.Other? then After(apply, w, call.m)
    else w
  }

  /** What it answers to the reads of a run of calls. */
  function Replay(apply: Provider, w: World, paths: seq<string>, calls: seq<Call>): seq<Outcome>
    requires forall c :: c in calls && !c.Other? ==> c.handle < |paths|
    decreases |calls|
  {
    if calls == [] then []
    else
      assert calls[0] in calls;
      Told(w, paths, calls[0]) + Replay(apply, Left(apply, w, paths, calls[0]), paths, calls[1..])
  }

  lemma ReplayHead(apply: Provider, w: World, paths: seq<string>, calls: seq<Call>, i: nat)
    requires i < |calls| && forall c :: c in calls && !c.Other? ==> c.handle < |paths|
    ensures calls[i] in calls
    ensures Replay(apply, w, paths, calls[i..])
      == Told(w, paths, calls[i]) + Replay(apply, Left(apply, w, paths, calls[i]), paths, calls[i + 1..])
  {
    assert calls[i..][1..] == calls[i + 1..] && calls[i..][0] == calls[i];
  }

  /** Over a whole run on any number of handles, with mutations through any of them, the reads
      return what the provider alone would answer. */
  method Session(fs: FS, handles: seq<File>, calls: seq<Call>) returns (answers: seq<Outcome>)
    requires fs.readAhead <= CAP && Lawful(fs.apply)
    requires forall h :: h in handles ==> h.fs == fs && h.Valid()
    requires forall i, j :: 0 <= i < j < |handles| ==> handles[i] != handles[j]
    requires forall c :: c in calls && !c.Other? ==> c.handle < |handles|
    modifies fs, handles
    ensures answers == Replay(fs.apply, old(fs.world), seq(|handles|, i requires 0 <= i < |handles| => handles[i].path), calls)
    ensures forall h :: h in handles ==> h.Valid()
  {
    answers := [];
    ghost var paths := seq(|handles|, i requires 0 <= i < |handles| => handles[i].path);
    for i := 0 to |calls|
      invariant forall h :: h in handles ==> h.Valid()
      invariant answers + Replay(fs.apply, fs.world, paths, calls[i..]) == Replay(fs.apply, old(fs.world), paths, calls)
    {
      ReplayHead(fs.apply, fs.world, paths, calls, i);
      Assoc(answers, Told(fs.world, paths, calls[i]), Replay(fs.apply, Left(fs.apply, fs.world, paths, calls[i]), paths, calls[i + 1..]));
      var told := Perform(fs, handles, calls[i], paths);
      answers := answers + told;
    }
  }

  /** One call. */
  method Perform(fs: FS, handles: seq<File>, call: Call, ghost paths: seq<string>) returns (told: seq<Outcome>)
    requires fs.readAhead <= CAP && Lawful(fs.apply)
    requires forall h :: h in handles ==> h.fs == fs && h.Valid()
    requires forall i, j :: 0 <= i < j < |handles| ==> handles[i] != handles[j]
    requires |paths| == |handles| && forall i :: 0 <= i < |handles| ==> paths[i] == handles[i].path
    requires !call.Other? ==> call.handle < |handles|
    modifies fs, handles
    ensures told == Told(old(fs.world), paths, call) && fs.world == Left(fs.apply, old(fs.world), paths, call)
    ensures forall h :: h in handles ==> h.Valid()
  {
    match call
    case Read(k, off, len) =>
      var p := new byte[len](_ => 0);
      var n, out := handles[k].ReadAt(p, off);
      return [out];
    case WriteCall(k, off, data, reply) =>
      var ok := handles[k].WriteAt(data, off, reply);
      return [];
    case Other(m) =>
      var ok := fs.Mutate(m);
      return [];
  }
}
