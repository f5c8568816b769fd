/** Open files of a connection and what reaches the backend (internal/smb/create.go, internal/smb/io.go,
    and the queries and SET_INFO in internal/smb/info.go). The backend is arbitrary: its answer to a call may
    depend on every call made before.
  */
module Handles {
  import opened Bytes
  import Bits
  import Utf16
  import DirBuffer
  import Enumerate

  type Path = string

  datatype Share = Share(name: string, readOnly: bool)

  // ----- status codes -----

  const SUCCESS: u32 := 0
  const INVALID_PARAMETER: u32 := 0xC000_000D
  const INSUFFICIENT_RESOURCES: u32 := 0xC000_009A
  const NETWORK_NAME_DELETED: u32 := 0xC000_00C9
  const NAME_COLLISION: u32 := 0xC000_0035
  const WRITE_PROTECTED: u32 := 0xC000_00A2
  const ACCESS_DENIED: u32 := 0xC000_0022
  const IS_A_DIRECTORY: u32 := 0xC000_00BA
  const NOT_A_DIRECTORY: u32 := 0xC000_0103
  const DIRECTORY_NOT_EMPTY: u32 := 0xC000_0101
  const NOT_SUPPORTED: u32 := 0xC000_00BB
  const INVALID_INFO_CLASS: u32 := 0xC000_0003
  const OBJECT_NAME_NOT_FOUND: u32 := 0xC000_0034
  const END_OF_FILE: u32 := 0xC000_0011
  const BUFFER_OVERFLOW: u32 := 0x8000_0005
  const NO_MORE_FILES: u32 := 0x8000_0006

  type Failure = s: u32 | s != SUCCESS witness ACCESS_DENIED

  // ----- open flags -----

  datatype Flags = Flags(rdwr: bool, append: bool, create: bool, excl: bool, trunc: bool) {
    predicate Writes() { rdwr || append || trunc }
  }

  const RDONLY := Flags(false, false, false, false, false)

  predicate Has(mask: u32, bit: nat)
    requires bit > 0
  {
    mask / bit % 2 == 1
  }

  const SUPERSEDE: u32 := 0
  const OPEN: u32 := 1
  const CREATE: u32 := 2
  const OPEN_IF: u32 := 3
  const OVERWRITE: u32 := 4
  const OVERWRITE_IF: u32 := 5

  predicate IsDirectoryFile(options: u32) { Has(options, 0x1) }
  predicate IsNonDirectoryFile(options: u32) { Has(options, 0x40) }
  predicate IsDeleteOnClose(options: u32) { Has(options, 0x1000) }

  /** accessToFlags */
  function AccessToFlags(access: u32, disposition: u32): Flags {
    var writeData, appendData := Has(access, 0x2), Has(access, 0x4);
    var write := Has(access, 0x4000_0000) || Has(access, 0x1000_0000) || writeData || appendData;
    Flags(write, appendData && !writeData,
      disposition == CREATE || disposition == OPEN_IF || disposition == OVERWRITE_IF || disposition == SUPERSEDE,
      disposition == CREATE,
      disposition == OVERWRITE || disposition == OVERWRITE_IF || disposition == SUPERSEDE)
  }

  lemma {:induction false} HasIsBit(mask: nat, k: nat)
    ensures mask / Bits.Pow2(k) % 2 == 1 <==> Bits.BitAt(mask, k)
    decreases k
  {
    if k > 0 {
      HasIsBit(mask / 2, k - 1);
      HalfFirst(mask, Bits.Pow2(k - 1));
    }
  }

  lemma HalfFirst(x: nat, p: nat)
    requires p > 0
    ensures x / (2 * p) == x / 2 / p
  {
    var q := x / 2 / p;
    var r := x / 2 - q * p;
    assert q * (2 * p) == 2 * (q * p);
    Bits.Quotient(x, 2 * p, q, 2 * r + x % 2);
  }

  /** The access rights that ask for writing: bits 1 and 2 (data and append), 28 and 30 (all, generic write). */
  predicate WriteBits(access: u32) {
    Bits.BitAt(access, 1) || Bits.BitAt(access, 2) || Bits.BitAt(access, 28) || Bits.BitAt(access, 30)
  }

  lemma AccessBits(access: u32)
    ensures Has(access, 0x2) == Bits.BitAt(access, 1) && Has(access, 0x4) == Bits.BitAt(access, 2)
    ensures Has(access, 0x1000_0000) == Bits.BitAt(access, 28) && Has(access, 0x4000_0000) == Bits.BitAt(access, 30)
  {
    PowersOfTwo();
    HasIsBit(access, 1);
    HasIsBit(access, 2);
    HasIsBit(access, 28);
    HasIsBit(access, 30);
  }

  lemma PowersOfTwo()
    ensures Bits.Pow2(0) == 1 && Bits.Pow2(1) == 0x2 && Bits.Pow2(2) == 0x4 && Bits.Pow2(6) == 0x40
    ensures Bits.Pow2(12) == 0x1000 && Bits.Pow2(28) == 0x1000_0000 && Bits.Pow2(30) == 0x4000_0000
  {
    Bits.Pow2Adds(12, 16);
    Bits.Pow2Adds(14, 14);
    Bits.Pow2Adds(2, 28);
    assert Bits.Pow2(14) == 0x4000;
  }

  /** CREATE's options: a folder is bit 0, no folder bit 6, deletion on close bit 12. */
  lemma OptionBits(options: u32)
    ensures IsDirectoryFile(options) == Bits.BitAt(options, 0)
    ensures IsNonDirectoryFile(options) == Bits.BitAt(options, 6)
    ensures IsDeleteOnClose(options) == Bits.BitAt(options, 12)
  {
    PowersOfTwo();
    HasIsBit(options, 0);
    HasIsBit(options, 6);
    HasIsBit(options, 12);
  }

  /** What the flags of an open say, by the access asked for and the disposition: SUPERSEDE is 0, OPEN 1, CREATE 2,
      OPEN_IF 3, OVERWRITE 4, OVERWRITE_IF 5. */
  lemma FlagsMean(access: u32, disposition: u32)
    ensures var f := AccessToFlags(access, disposition);
      && (f.rdwr <==> WriteBits(access))
      && (f.append <==> Bits.BitAt(access, 2) && !Bits.BitAt(access, 1))
      && (f.create <==> disposition in [0, 2, 3, 5])
      && (f.excl <==> disposition == 2)
      && (f.trunc <==> disposition in [0, 4, 5])
  {
    AccessBits(access);
  }

  // ----- the backend -----

  /** A backend handle is named by its place in the log: the OpenFile call that made it. */
  type Handle = nat

  datatype Call =
    | Stat(share: Share, path: Path)
    | OpenFile(share: Share, path: Path, flags: Flags)
    | Mkdir(share: Share, path: Path)
    | ReadDir(share: Share, path: Path)
    | Rename(share: Share, path: Path, to: Path)
    | Remove(share: Share, path: Path)
    | Truncate(share: Share, path: Path, size: u64)
    | Chtimes(share: Share, path: Path, time: u64)
    | Statfs(share: Share)
    | HandleStat(share: Share, handle: Handle)
    | ReadAt(share: Share, handle: Handle, offset: u64, length: u32)
    | WriteAt(share: Share, handle: Handle, offset: u64, data: bytes)
    | TruncateHandle(share: Share, handle: Handle, size: u64)
    | Sync(share: Share, handle: Handle)
    | Close(share: Share, handle: Handle)

  /** Calls that change a filesystem, and opens that could. */
  predicate Mutating(c: Call) {
    || c.Mkdir? || c.Rename? || c.Remove? || c.Truncate? || c.Chtimes? || c.WriteAt? || c.TruncateHandle?
    || (c.OpenFile? && c.flags != RDONLY)
  }

  type Log = seq<Call>

  /** What a call answered, as far as the server looks at it: the status its error maps to, or what Stat
      says, the entries ReadDir lists, and the bytes ReadAt delivers.
    */
  datatype Answer = Fail(status: Failure) | Ok(entry: DirBuffer.Entry, entries: seq<DirBuffer.Entry>, data: bytes) {
    predicate IsDir() { Ok? && entry.isDir }
    /** fileIsReadOnly, of what could be looked up at all */
    predicate IsReadOnlyFile() { Ok? && entry.readOnly && !entry.isDir }
    function Status(): u32 { if Fail? then status else SUCCESS }
  }

  /** The backend's answer to the last call of a log. */
  type Oracle = Log -> Answer

  // ----- what is kept -----

  /** Nothing that changes a filesystem reaches a read-only share. */
  ghost predicate SparesReadOnly(log: Log) {
    forall i :: 0 <= i < |log| && Mutating(log[i]) ==> !log[i].share.readOnly
  }

  /** Call i opened a handle. */
  ghost predicate Opened(oracle: Oracle, log: Log, i: nat) {
    i < |log| && log[i].OpenFile? && oracle(log[..i + 1]).Ok?
  }

  /** How often a handle has been closed. */
  ghost function Closes(log: Log, h: Handle): nat {
    if log == [] then 0
    else Closes(log[..|log| - 1], h) + (if log[|log| - 1].Close? && log[|log| - 1].handle == h then 1 else 0)
  }

  /** Every handle obtained is either live and never closed, or closed exactly once; nothing else is. */
  ghost predicate Conserved(oracle: Oracle, log: Log, live: set<Handle>) {
    && (forall h :: h in live ==> Opened(oracle, log, h))
    && forall h :: Closes(log, h) == if Opened(oracle, log, h) && h !in live then 1 else 0
  }

  lemma OneMoreCall(oracle: Oracle, log: Log, c: Call, live: set<Handle>)
    requires Conserved(oracle, log, live) && SparesReadOnly(log)
    ensures !c.Close? && !c.OpenFile? ==> Conserved(oracle, log + [c], live)
    ensures c.OpenFile? && oracle(log + [c]).Fail? ==> Conserved(oracle, log + [c], live)
    ensures c.OpenFile? && oracle(log + [c]).Ok? ==> |log| !in live && Conserved(oracle, log + [c], live + {|log|})
    ensures c.Close? && c.handle in live ==> Conserved(oracle, log + [c], live - {c.handle})
    ensures (Mutating(c) ==> !c.share.readOnly) ==> SparesReadOnly(log + [c])
  {
    var longer := log + [c];
    assert longer[..|longer| - 1] == log;
    forall i | 0 <= i < |log| ensures Opened(oracle, longer, i) == Opened(oracle, log, i) {
      assert longer[..i + 1] == log[..i + 1];
    }
    assert longer[..|log| + 1] == longer;
    assert !Opened(oracle, log, |log|);
  }

  class Backend {
    const oracle: Oracle
    var log: Log

    constructor (oracle: Oracle)
      ensures this.oracle == oracle && log == []
    {
      this.oracle, log := oracle, [];
    }

    /** A call that neither opens nor closes a handle. */
    method Do(c: Call, ghost live: set<Handle>) returns (a: Answer)
      requires Conserved(oracle, log, live) && SparesReadOnly(log)
      requires !c.OpenFile? && !c.Close? && (Mutating(c) ==> !c.share.readOnly)
      modifies this
      ensures log == old(log) + [c] && a == oracle(log)
      ensures Conserved(oracle, log, live) && SparesReadOnly(log)
    {
      OneMoreCall(oracle, log, c, live);
      log := log + [c];
      a := oracle(log);
    }

    /** OpenFile: a handle it gives is one more to be closed. */
    method Open(share: Share, path: Path, flags: Flags, ghost live: set<Handle>) returns (a: Answer)
      requires Conserved(oracle, log, live) && SparesReadOnly(log) && (share.readOnly ==> flags == RDONLY)
      modifies this
      ensures log == old(log) + [OpenFile(share, path, flags)] && a == oracle(log) && SparesReadOnly(log)
      ensures a.Fail? ==> Conserved(oracle, log, live)
      ensures a.Ok? ==> |old(log)| !in live && Conserved(oracle, log, live + {|old(log)|})
    {
      OneMoreCall(oracle, log, OpenFile(share, path, flags), live);
      log := log + [OpenFile(share, path, flags)];
      a := oracle(log);
    }

    /** Close, which gives the handle up whether it succeeds or not. */
    method Shut(share: Share, handle: Handle, ghost live: set<Handle>) returns (a: Answer)
      requires Conserved(oracle, log, live) && SparesReadOnly(log) && handle in live
      modifies this
      ensures log == old(log) + [Close(share, handle)] && a == oracle(log)
      ensures Conserved(oracle, log, live - {handle}) && SparesReadOnly(log)
    {
      OneMoreCall(oracle, log, Close(share, handle), live);
      log := log + [Close(share, handle)];
      a := oracle(log);
    }
  }

  // ----- opens and their keys -----

  type FileId = bytes

  /** The FileId of the n-th open: the number twice, 64 bits each. */
  function FileIdOf(n: nat): FileId { Le(n, 8) + Le(n, 8) }

  lemma FileIdsDiffer(m: u64, n: u64)
    requires FileIdOf(m) == FileIdOf(n)
    ensures m == n
  {
    Le64(m);
    Le64(n);
    assert FileIdOf(m)[..8] == Le(m, 8) && FileIdOf(n)[..8] == Le(n, 8);
  }

  /** Both halves of a FileId say its number. */
  lemma FileIdSaysNumber(n: u64)
    ensures |FileIdOf(n)| == 16 && U64At(FileIdOf(n), 0) == n && U64At(FileIdOf(n), 8) == n
  {
    Le64(n);
    assert FileIdOf(n)[0..8] == Le(n, 8) && FileIdOf(n)[8..16] == Le(n, 8);
  }

  /** A server-side open. */
  datatype Open = Open(share: Share, path: Path, isDir: bool, handle: Option<Handle>, deleteOnClose: bool,
    listing: Enumerate.Cursor, num: nat)
  {
    /** stat: through the handle when there is one. */
    function StatCall(): Call {
      if handle.Some? then HandleStat(share, handle.value) else Stat(share, path)
    }

    /** truncate */
    function TruncateCall(size: u64): Call {
      if handle.Some? then TruncateHandle(share, handle.value, size) else Truncate(share, path, size)
    }

    function CloseCalls(): Log { if handle.Some? then [Close(share, handle.value)] else [] }

    ghost function Handles(): set<Handle> { if handle.Some? then {handle.value} else {} }
  }

  /** Everything that can goes through the backend handle. */
  lemma ThroughTheHandle(o: Open, size: u64)
    ensures o.handle.Some? ==>
      && o.StatCall() == HandleStat(o.share, o.handle.value)
      && o.TruncateCall(size) == TruncateHandle(o.share, o.handle.value, size)
      && o.CloseCalls() == [Close(o.share, o.handle.value)]
    ensures o.handle.None? ==>
      o.StatCall() == Stat(o.share, o.path) && o.TruncateCall(size) == Truncate(o.share, o.path, size) && o.CloseCalls() == []
  {
  }

  const MAX_OPEN: nat := 16384

  type Table = map<FileId, Open>

  /** The backend handles of a table's opens. */
  ghost function LiveIn(t: Table): set<Handle> {
    set id | id in t && t[id].handle.Some? :: t[id].handle.value
  }

  /** Each open sits under its own FileId, numbered no higher than the counter; no two opens share a
      backend handle; and no open on a read-only share is to be deleted. */
  ghost predicate Orderly(t: Table, counter: nat) {
    && counter < 0x1_0000_0000_0000_0000
    && |t| <= MAX_OPEN
    && (forall id :: id in t ==> id == FileIdOf(t[id].num) && 0 < t[id].num <= counter)
    && (forall id, jd :: id in t && jd in t && t[id].handle.Some? && t[id].handle == t[jd].handle ==> id == jd)
    && forall id :: id in t && t[id].share.readOnly ==> !t[id].deleteOnClose
  }

  /** What every step of a connection keeps. */
  ghost predicate Kept(oracle: Oracle, log: Log, t: Table, counter: nat) {
    Orderly(t, counter) && Conserved(oracle, log, LiveIn(t)) && SparesReadOnly(log)
  }

  /** A FileId that was given out and is gone stays gone. */
  ghost predicate Retires(t: Table, counter: nat, t': Table, counter': nat) {
    counter <= counter' && forall n :: 0 <= n <= counter && FileIdOf(n) !in t ==> FileIdOf(n) !in t'
  }

  lemma FreshId(t: Table, counter: nat)
    requires Orderly(t, counter) && counter + 1 < 0x1_0000_0000_0000_0000
    ensures FileIdOf(counter + 1) !in t
  {
    var id := FileIdOf(counter + 1);
    if id in t { FileIdsDiffer(t[id].num, counter + 1); }
  }

  /** A new open, under the next number. */
  function Added(t: Table, counter: nat, o: Open): Table {
    t[FileIdOf(counter + 1) := o.(num := counter + 1)]
  }

  lemma LiveAfterAdd(t: Table, id: FileId, o: Open)
    requires id !in t
    ensures LiveIn(t[id := o]) == LiveIn(t) + o.Handles()
  {
    var u := t[id := o];
    forall h | h in LiveIn(t) ensures h in LiveIn(u) {
      var jd :| jd in t && t[jd].handle == Some(h);
      assert jd in u && u[jd] == t[jd];
    }
    assert id in u && u[id] == o;
  }

  lemma OneMoreKey(t: Table, id: FileId, o: Open)
    requires id !in t
    ensures |t[id := o]| == |t| + 1
  {
    assert t[id := o].Keys == t.Keys + {id};
    assert |t[id := o].Keys| == |t.Keys| + 1;
  }

  lemma OrderlyAfterAdd(t: Table, counter: nat, o: Open)
    requires Orderly(t, counter) && counter + 1 < 0x1_0000_0000_0000_0000 && |t| < MAX_OPEN
    requires o.Handles() !! LiveIn(t) && (o.share.readOnly ==> !o.deleteOnClose)
    ensures Orderly(Added(t, counter, o), counter + 1)
  {
    FreshId(t, counter);
    OneMoreKey(t, FileIdOf(counter + 1), o.(num := counter + 1));
    forall jd | jd in t && t[jd].handle.Some? ensures t[jd].handle.value in LiveIn(t) {}
  }

  lemma RetiresAfterAdd(t: Table, counter: nat, o: Open)
    requires counter + 1 < 0x1_0000_0000_0000_0000
    ensures Retires(t, counter, Added(t, counter, o), counter + 1)
  {
    forall n | 0 <= n <= counter && FileIdOf(n) !in t ensures FileIdOf(n) !in Added(t, counter, o) {
      if FileIdOf(n) == FileIdOf(counter + 1) { FileIdsDiffer(n, counter + 1); }
    }
  }

  /** newFileID and addHandle keep everything, for a backend handle that has just been obtained. */
  lemma KeptAfterAdd(oracle: Oracle, log: Log, t: Table, counter: nat, o: Open)
    requires Orderly(t, counter) && counter + 1 < 0x1_0000_0000_0000_0000 && |t| < MAX_OPEN
    requires o.Handles() !! LiveIn(t) && (o.share.readOnly ==> !o.deleteOnClose)
    requires Conserved(oracle, log, LiveIn(t) + o.Handles()) && SparesReadOnly(log)
    ensures FileIdOf(counter + 1) !in t
    ensures Kept(oracle, log, Added(t, counter, o), counter + 1)
    ensures Retires(t, counter, Added(t, counter, o), counter + 1)
  {
    FreshId(t, counter);
    OrderlyAfterAdd(t, counter, o);
    LiveAfterAdd(t, FileIdOf(counter + 1), o.(num := counter + 1));
    RetiresAfterAdd(t, counter, o);
  }

  lemma FewerKeys(t: Table, id: FileId)
    requires id in t
    ensures |t - {id}| < |t|
  {
    assert (t - {id}).Keys == t.Keys - {id};
    assert |(t - {id}).Keys| == |t.Keys| - 1;
  }

  lemma AfterRemove(t: Table, counter: nat, id: FileId)
    requires Orderly(t, counter) && id in t
    ensures Orderly(t - {id}, counter) && t[id].Handles() <= LiveIn(t)
    ensures LiveIn(t - {id}) == LiveIn(t) - t[id].Handles()
  {
    FewerKeys(t, id);
    var u := t - {id};
    forall h | h in LiveIn(t) && t[id].handle != Some(h) ensures h in LiveIn(u) {
      var jd :| jd in t && t[jd].handle == Some(h);
      assert jd in u;
    }
  }

  /** One open before and after. */
  predicate SameOpen(o: Open, o': Open) {
    o'.share == o.share && o'.isDir == o.isDir && o'.handle == o.handle && o'.num == o.num
  }

  lemma SameLive(t: Table, id: FileId, o: Open)
    requires id in t && o.handle == t[id].handle
    ensures |t[id := o]| == |t| && LiveIn(t[id := o]) == LiveIn(t)
  {
    var u := t[id := o];
    assert u.Keys == t.Keys;
    assert |u.Keys| == |t.Keys|;
    forall h | h in LiveIn(t) ensures h in LiveIn(u) {
      var jd :| jd in t && t[jd].handle == Some(h);
      assert jd in u && u[jd].handle == Some(h);
    }
  }

  /** An open may change its path, its listing, and whether it is to be deleted unless its share is
      read-only. */
  lemma AfterUpdate(t: Table, counter: nat, id: FileId, o: Open)
    requires Orderly(t, counter) && id in t && SameOpen(t[id], o) && (o.share.readOnly ==> !o.deleteOnClose)
    ensures Orderly(t[id := o], counter) && LiveIn(t[id := o]) == LiveIn(t) && Retires(t, counter, t[id := o], counter)
  {
    SameLive(t, id, o);
  }

  // ----- CREATE -----

  datatype CreateRequest = CreateRequest(tree: u32, access: u32, disposition: u32, options: u32, path: Path)

  /** What the checks of CREATE decide before anything is opened. */
  datatype Plan = Refuse(status: Failure) | OpenDirectory | MakeDirectory | OpenPath(flags: Flags)

  /** The checks of CREATE, given what Stat said of the path. */
  function PlanCreate(share: Share, q: CreateRequest, found: Answer): Plan {
    var present, flags := found.Ok?, AccessToFlags(q.access, q.disposition);
    var directory, doc := IsDirectoryFile(q.options), IsDeleteOnClose(q.options);
    if !present && (q.disposition == OPEN || q.disposition == OVERWRITE) then Refuse(found.status)
    else if present && q.disposition == CREATE then Refuse(NAME_COLLISION)
    else if share.readOnly && (flags.Writes() || (!present && (flags.create || directory)) || doc) then Refuse(WRITE_PROTECTED)
    else if found.IsReadOnlyFile() && (flags.Writes() || doc) then Refuse(ACCESS_DENIED)
    else if present && found.IsDir() then
      if IsNonDirectoryFile(q.options) then Refuse(IS_A_DIRECTORY) else OpenDirectory
    else if !present && directory then MakeDirectory
    else if present && directory then Refuse(NOT_A_DIRECTORY)
    else OpenPath(if share.readOnly then RDONLY else flags)
  }

  /** What a CreateDisposition asks for ([MS-SMB2] section 2.2.13), and what opening with given flags does. */
  datatype Effect = Fails | Opens | Creates | Overwrites

  function Wanted(disposition: u32, present: bool): Effect {
    if disposition == OPEN then (if present then Opens else Fails)
    else if disposition == CREATE then (if present then Fails else Creates)
    else if disposition == OPEN_IF then (if present then Opens else Creates)
    else if disposition == OVERWRITE then (if present then Overwrites else Fails)
    else if present then Overwrites else Creates
  }

  function Done(flags: Flags, present: bool): Effect {
    if present then (if flags.create && flags.excl then Fails else if flags.trunc then Overwrites else Opens)
    else if flags.create then Creates else Fails
  }

  /** What a plan does to the path, unless it refuses. */
  function EffectOf(plan: Plan, found: Answer): Effect {
    match plan
    case Refuse(_) => Fails
    case OpenDirectory => Opens
    case MakeDirectory => Creates
    case OpenPath(flags) => Done(flags, found.Ok?)
  }

  predicate AsksToWrite(access: u32) {
    Has(access, 0x4000_0000) || Has(access, 0x1000_0000) || Has(access, 0x2) || Has(access, 0x4)
  }

  /** The request would change the file it names, now or at its CLOSE. */
  predicate Alters(q: CreateRequest) {
    || AsksToWrite(q.access) || IsDeleteOnClose(q.options)
    || q.disposition == SUPERSEDE || q.disposition == OVERWRITE || q.disposition == OVERWRITE_IF
  }

  /** When CREATE is refused: the disposition cannot be met, the share or the file is read-only and the request
      would change something, or the kind of file is not the one asked for. */
  lemma RefusesExactly(share: Share, q: CreateRequest, found: Answer)
    requires q.disposition <= OVERWRITE_IF
    ensures var wanted := Wanted(q.disposition, found.Ok?);
      PlanCreate(share, q, found).Refuse? <==>
        || wanted.Fails?
        || (share.readOnly && (Alters(q) || wanted.Creates?))
        || (found.IsReadOnlyFile() && Alters(q))
        || (found.IsDir() && IsNonDirectoryFile(q.options))
        || (found.Ok? && !found.IsDir() && IsDirectoryFile(q.options))
  {
  }

  /** And with which status, the first reason that applies: the name does or does not exist, the share is
      read-only, the file is, it is a folder, it is no folder. */
  lemma RefusalStatus(share: Share, q: CreateRequest, found: Answer)
    requires q.disposition <= OVERWRITE_IF && PlanCreate(share, q, found).Refuse?
    ensures var wanted := Wanted(q.disposition, found.Ok?);
      PlanCreate(share, q, found).status ==
        if wanted.Fails? then (if found.Ok? then 0xC000_0035 else found.status)
        else if share.readOnly && (Alters(q) || wanted.Creates?) then 0xC000_00A2
        else if found.IsReadOnlyFile() && Alters(q) then 0xC000_0022
        else if found.IsDir() then 0xC000_00BA
        else 0xC000_0103
  {
  }

  /** What changes a file: rights to write, deletion on close, and the dispositions that overwrite. */
  lemma AltersMeans(q: CreateRequest)
    ensures Alters(q) <==> WriteBits(q.access) || Bits.BitAt(q.options, 12) || q.disposition in [0, 4, 5]
  {
    AccessBits(q.access);
    OptionBits(q.options);
  }

  /** What is not refused does what its disposition asks, also where a read-only share has had its flags
      stripped, except that an existing folder is opened where it should have been overwritten. */
  lemma PlanDoesWhatIsWanted(share: Share, q: CreateRequest, found: Answer)
    requires q.disposition <= OVERWRITE_IF && !PlanCreate(share, q, found).Refuse?
    ensures var effect, wanted := EffectOf(PlanCreate(share, q, found), found), Wanted(q.disposition, found.Ok?);
      && (effect == wanted <==> !(found.IsDir() && wanted.Overwrites?))
      && (effect != wanted ==> effect == Opens)
  {
  }

  /** Such an input: overwriting the folder "d", which is there. */
  lemma OverwritingAFolderOpensIt(time: u64)
    ensures var d := Ok(DirBuffer.Entry("d", true, false, 0, time), [], []);
      && PlanCreate(Share("s", false), CreateRequest(1, 0, OVERWRITE, 0, "d"), d) == OpenDirectory
      && Wanted(OVERWRITE, true) == Overwrites
  {
  }

  /** No disposition is defined above 5. One is treated like OPEN for a path that is there; for one that is not,
      the error is left to the backend, or a folder is made if one is asked for. */
  lemma UndefinedDispositions(share: Share, q: CreateRequest, found: Answer)
    requires q.disposition > OVERWRITE_IF
    ensures var plan := PlanCreate(share, q, found);
      && (found.Ok? ==> plan == PlanCreate(share, q.(disposition := OPEN), found))
      && (!found.Ok? && !plan.Refuse? ==>
            if IsDirectoryFile(q.options) then plan == MakeDirectory else EffectOf(plan, found) == Fails)
  {
  }

  /** On a read-only share the plan never changes the filesystem, and no open is to be deleted. */
  lemma PlanOnReadOnlyShare(share: Share, q: CreateRequest, found: Answer)
    requires share.readOnly
    ensures var plan := PlanCreate(share, q, found);
      && !plan.MakeDirectory? && (plan.OpenPath? ==> plan.flags == RDONLY)
      && (IsDeleteOnClose(q.options) ==> plan.Refuse?)
  {
  }

  /** What CREATE asks to be put into the table: a directory when there is no backend handle. */
  function NewOpen(share: Share, q: CreateRequest, handle: Option<Handle>): Open {
    Open(share, q.path, handle.None?, handle, IsDeleteOnClose(q.options), Enumerate.Cursor([], 0, false), 0)
  }

  /** What CREATE leaves behind: its answer, the log, the table and the counter. */
  datatype Made = Made(status: u32, log: Log, table: Table, counter: nat)

  /** The open enters the table, and its attributes are looked up for the reply. */
  function Entered(o: Open, log: Log, t: Table, counter: nat): Made {
    Made(SUCCESS, log + [o.StatCall()], Added(t, counter, o), counter + 1)
  }

  /** The plan carried out. */
  function CarriedOut(oracle: Oracle, share: Share, q: CreateRequest, plan: Plan, log: Log, t: Table, counter: nat): Made {
    match plan
    case Refuse(status) => Made(status, log, t, counter)
    case OpenDirectory => Entered(NewOpen(share, q, None), log, t, counter)
    case MakeDirectory =>
      var made := log + [Mkdir(share, q.path)];
      var there := made + [Stat(share, q.path)];
      if oracle(made).Fail? then Made(oracle(made).status, made, t, counter)
      else if oracle(there).Fail? then Made(oracle(there).status, there, t, counter)
      else Entered(NewOpen(share, q, None), there, t, counter)
    case OpenPath(flags) =>
      var reached := log + [OpenFile(share, q.path, flags)];
      if oracle(reached).Fail? then Made(oracle(reached).status, reached, t, counter)
      else Entered(NewOpen(share, q, Some(|log|)), reached, t, counter)
  }

  function CreateOn(oracle: Oracle, disk: map<u32, Share>, pipes: set<u32>, q: CreateRequest, log: Log, t: Table,
      counter: nat): Made
  {
    if q.tree in pipes then Made(OBJECT_NAME_NOT_FOUND, log, t, counter)
    else if |t| >= MAX_OPEN then Made(INSUFFICIENT_RESOURCES, log, t, counter)
    else if q.tree !in disk then Made(NETWORK_NAME_DELETED, log, t, counter)
    else
      var asked := log + [Stat(disk[q.tree], q.path)];
      CarriedOut(oracle, disk[q.tree], q, PlanCreate(disk[q.tree], q, oracle(asked)), asked, t, counter)
  }

  /** A CREATE that succeeds puts one open into the table, as asked, under the next FileId, and one that fails
      changes nothing there; a backend handle is named by the call that opened it. */
  ghost predicate OneOpenOrNothing(made: Made, share: Share, q: CreateRequest, t: Table, counter: nat) {
    if made.status != SUCCESS then made.table == t && made.counter == counter
    else
      && made.counter == counter + 1 && FileIdOf(counter + 1) in made.table
      && made.table == t[FileIdOf(counter + 1) := made.table[FileIdOf(counter + 1)]]
      && AsAsked(made.table[FileIdOf(counter + 1)], share, q, counter + 1, made.log)
  }

  lemma PlanAddsOneOpen(oracle: Oracle, share: Share, q: CreateRequest, plan: Plan, log: Log, t: Table, counter: nat)
    ensures var made := CarriedOut(oracle, share, q, plan, log, t, counter);
      NoRemoves(log, made.log) && OneOpenOrNothing(made, share, q, t, counter)
  {
  }

  lemma CreateAddsOneOpen(oracle: Oracle, disk: map<u32, Share>, pipes: set<u32>, q: CreateRequest, log: Log, t: Table,
      counter: nat)
    ensures var made := CreateOn(oracle, disk, pipes, q, log, t, counter);
      && NoRemoves(log, made.log) && (made.status == SUCCESS ==> q.tree in disk)
      && (if q.tree in disk then OneOpenOrNothing(made, disk[q.tree], q, t, counter)
          else made.table == t && made.counter == counter)
  {
    if q.tree in disk {
      var asked := log + [Stat(disk[q.tree], q.path)];
      PlanAddsOneOpen(oracle, disk[q.tree], q, PlanCreate(disk[q.tree], q, oracle(asked)), asked, t, counter);
    }
  }

  /** CREATE before any file is looked for: not on a pipe, not with 16384 opens, not on an unknown tree; after
      that, the path is looked up first. */
  lemma CreateAnswers(oracle: Oracle, disk: map<u32, Share>, pipes: set<u32>, q: CreateRequest, log: Log, t: Table,
      counter: nat)
    ensures var made := CreateOn(oracle, disk, pipes, q, log, t, counter);
      if q.tree in pipes then made == Made(0xC000_0034, log, t, counter)
      else if |t| >= 16384 then made == Made(0xC000_009A, log, t, counter)
      else if q.tree !in disk then made == Made(0xC000_00C9, log, t, counter)
      else log + [Stat(disk[q.tree], q.path)] <= made.log
  {
    CreateAddsOneOpen(oracle, disk, pipes, q, log, t, counter);
  }

  /** The one call of a plan that opens or makes something, and that its error is the answer. */
  lemma PlanIsCarriedOut(oracle: Oracle, share: Share, q: CreateRequest, plan: Plan, log: Log, t: Table, counter: nat)
    ensures var made := CarriedOut(oracle, share, q, plan, log, t, counter);
      && (plan.Refuse? ==> made == Made(plan.status, log, t, counter))
      && (plan.OpenPath? || plan.MakeDirectory? ==>
            var call := if plan.OpenPath? then OpenFile(share, q.path, plan.flags) else Mkdir(share, q.path);
            log + [call] <= made.log && (oracle(log + [call]).Fail? ==> made == Made(oracle(log + [call]).status, log + [call], t, counter)))
      && (plan.MakeDirectory? && oracle(log + [Mkdir(share, q.path)]).Ok? ==>
            var there := log + [Mkdir(share, q.path)] + [Stat(share, q.path)];
            there <= made.log && made.status == if oracle(there).Fail? then oracle(there).status else 0)
      && (plan.OpenDirectory? || (plan.OpenPath? && oracle(log + [OpenFile(share, q.path, plan.flags)]).Ok?) ==> made.status == 0)
  {
  }

  predicate AsAsked(o: Open, share: Share, q: CreateRequest, num: nat, log: Log) {
    && o.share == share && o.path == q.path && o.deleteOnClose == IsDeleteOnClose(q.options) && o.num == num
    && !o.listing.loaded && o.isDir == o.handle.None?
    && (o.handle.Some? ==> o.handle.value < |log| && log[o.handle.value].OpenFile? && log[o.handle.value].path == q.path)
  }

  // ----- CLOSE -----

  /** How CLOSE of an open goes on from log, and what it answers: the attributes first when they are asked
      for and the file is to stay, then the backend handle, then the file if it is to be deleted and the
      handle closed without an error. */
  function Ended(oracle: Oracle, o: Open, postQuery: bool, log: Log): (u32, Log) {
    var asked := log + (if postQuery && !o.deleteOnClose then [o.StatCall()] else []);
    var closed := asked + o.CloseCalls();
    var removed := closed + [Remove(o.share, o.path)];
    if o.handle.Some? && oracle(closed).Fail? then (oracle(closed).status, closed)
    else if o.deleteOnClose then (oracle(removed).Status(), removed)
    else (SUCCESS, closed)
  }

  /** The handle of an open, if it has one, has been closed among the calls made since, without an error. */
  ghost predicate ClosesOk(oracle: Oracle, o: Open, log: Log, log': Log) {
    o.handle.None? || exists j: nat :: |log| <= j && ClosedOkAt(oracle, o.share, o.handle.value, log', j)
  }

  ghost predicate ClosedOkAt(oracle: Oracle, share: Share, handle: Handle, log: Log, j: nat) {
    j < |log| && log[j] == Close(share, handle) && oracle(log[..j + 1]).Ok?
  }

  /** What a CLOSE is for: the open's handle is closed, and its file removed exactly when it is marked for
      deletion and the handle was closed without an error. The removal comes last, and an error of the one or the
      other is the answer. */
  ghost predicate RightlyEnded(oracle: Oracle, o: Open, log: Log, log': Log, status: u32) {
    && log <= log'
    && ((exists i :: |log| <= i < |log'| && log'[i].Remove?) <==> o.deleteOnClose && ClosesOk(oracle, o, log, log'))
    && (forall i :: |log| <= i < |log'| && log'[i].Remove? ==>
          i == |log'| - 1 && log'[i] == Remove(o.share, o.path) && status == if oracle(log').Fail? then oracle(log').status else 0)
    && (o.handle.Some? ==> exists j :: |log| <= j < |log'| && log'[j] == Close(o.share, o.handle.value))
    && (forall j :: |log| <= j < |log'| && log'[j].Close? ==>
          && o.handle == Some(log'[j].handle)
          && (oracle(log'[..j + 1]).Fail? ==> status == oracle(log'[..j + 1]).status && j == |log'| - 1))
    && (ClosesOk(oracle, o, log, log') && !o.deleteOnClose ==> status == 0)
  }

  lemma EndedRightly(oracle: Oracle, o: Open, postQuery: bool, log: Log)
    ensures var (status, log') := Ended(oracle, o, postQuery, log); RightlyEnded(oracle, o, log, log', status)
  {
    var asked := log + (if postQuery && !o.deleteOnClose then [o.StatCall()] else []);
    if o.handle.None? {
      assert asked + o.CloseCalls() == asked;
      RightWithoutHandle(oracle, o, log, asked);
    } else {
      RightWithHandle(oracle, o, log, asked);
    }
  }

  /** asked goes on from log without closing or removing anything. */
  ghost predicate JustAsked(log: Log, asked: Log) {
    log <= asked && forall i :: |log| <= i < |asked| ==> asked[i].Stat? || asked[i].HandleStat?
  }

  lemma RightWithoutHandle(oracle: Oracle, o: Open, log: Log, asked: Log)
    requires JustAsked(log, asked) && o.handle.None?
    ensures var removed := asked + [Remove(o.share, o.path)];
      if o.deleteOnClose then RightlyEnded(oracle, o, log, removed, oracle(removed).Status())
      else RightlyEnded(oracle, o, log, asked, SUCCESS)
  {
    var removed := asked + [Remove(o.share, o.path)];
    assert removed[|asked|].Remove?;
  }

  lemma RightWithHandle(oracle: Oracle, o: Open, log: Log, asked: Log)
    requires JustAsked(log, asked) && o.handle.Some?
    ensures var closed := asked + [Close(o.share, o.handle.value)];
      var removed := closed + [Remove(o.share, o.path)];
      if oracle(closed).Fail? then RightlyEnded(oracle, o, log, closed, oracle(closed).status)
      else if o.deleteOnClose then RightlyEnded(oracle, o, log, removed, oracle(removed).Status())
      else RightlyEnded(oracle, o, log, closed, SUCCESS)
  {
    var closed := asked + [Close(o.share, o.handle.value)];
    assert closed[..|asked| + 1] == closed;
    if oracle(closed).Ok? && o.deleteOnClose {
      RightWithRemoval(oracle, o, log, asked);
    } else {
      assert closed[|asked|] == Close(o.share, o.handle.value);
      if oracle(closed).Ok? { assert ClosedOkAt(oracle, o.share, o.handle.value, closed, |asked|); }
    }
  }

  lemma RightWithRemoval(oracle: Oracle, o: Open, log: Log, asked: Log)
    requires JustAsked(log, asked) && o.handle.Some? && o.deleteOnClose
    requires oracle(asked + [Close(o.share, o.handle.value)]).Ok?
    ensures var removed := asked + [Close(o.share, o.handle.value)] + [Remove(o.share, o.path)];
      RightlyEnded(oracle, o, log, removed, oracle(removed).Status())
  {
    var closed := asked + [Close(o.share, o.handle.value)];
    var removed := closed + [Remove(o.share, o.path)];
    assert removed[..|asked| + 1] == closed;
    assert removed[|asked|] == Close(o.share, o.handle.value);
    assert ClosedOkAt(oracle, o.share, o.handle.value, removed, |asked|);
    assert removed[|closed|].Remove?;
  }

  // ----- requests -----

  /** A request as its handler sees it; a Malformed one is shorter than the fixed part of its body.
      TREE_CONNECT carries the id the server gives out and the share, None being IPC$. QUERY_DIRECTORY says
      whether the client has macOS's layout by then.
    */
  datatype Request =
    | Malformed
    | TreeConnect(id: u32, share: Option<Share>)
    | TreeDisconnect(tree: u32)
    | Create(create: CreateRequest)
    | CloseFile(file: FileId, postQuery: bool)
    | Read(file: FileId, offset: u64, length: u32)
    | Write(file: FileId, offset: u64, dataOffset: int, length: u32, body: bytes)
    | Flush(file: FileId)
    | QueryInfo(file: FileId, infoType: byte, infoClass: byte, outLen: u32)
    | QueryDirectory(file: FileId, query: Enumerate.Query, aapl: bool)
    | SetInfo(file: FileId, inBounds: bool, infoType: byte, infoClass: byte, buf: bytes)
  {
    /** A request that can only be served on an open, and one that names one at all. */
    predicate NeedsOpen() { Read? || Write? || QueryInfo? || QueryDirectory? || SetInfo? }
    predicate Names(id: FileId) { (NeedsOpen() || Flush? || CloseFile?) && file == id }
  }

  /** A child that Stat found is the one entry; a folder that cannot be read has no listing. */
  lemma ListingAnswersMean(q: Enumerate.Query, a: Answer)
    ensures var answers := ListingAnswers(q, a);
      if q.pattern != "" && forall i :: 0 <= i < |q.pattern| ==> q.pattern[i] !in "*?<>\"" then
        answers.stat == if a.Fail? then None else Some(a.entry)
      else answers.list == if a.Fail? then None else Some(a.entries)
  {
  }

  /** What SET_INFO leaves behind: its answer, the log, and the open. */
  datatype Outcome = Outcome(status: u32, log: Log, o: Open)

  const MAX_IO: nat := 0x10_0000

  const INFO_FILE: byte := 1
  const INFO_FILESYSTEM: byte := 2

  /** How long the answer of QUERY_INFO is, None for a class that is not supported. A name in it is the last
      part of the open's path or the share's own. */
  function InfoSize(infoType: byte, infoClass: byte, base: string, volume: string): Option<nat> {
    if infoType == INFO_FILE then
      if infoClass == 0x12 then Some(100 + Max(|Utf16.NameBytes(base)|, 2))
      else if infoClass == 0x05 then Some(24)
      else if infoClass == 0x04 then Some(40)
      else if infoClass == 0x06 || infoClass == 0x23 then Some(8)
      else if infoClass == 0x07 then Some(4)
      else if infoClass == 0x22 then Some(56)
      else None
    else if infoType == INFO_FILESYSTEM then
      if infoClass == 0x07 then Some(32)
      else if infoClass == 0x03 then Some(24)
      else if infoClass == 0x05 then Some(20)
      else if infoClass == 0x01 then Some(18 + |Utf16.NameBytes(volume)|)
      else if infoClass == 0x04 then Some(8)
      else None
    else None
  }

  /** What QUERY_INFO asks the backend: attributes for any file class, sizes for the two classes that have
      them. */
  function InfoCalls(o: Open, infoType: byte, infoClass: byte): Log {
    if infoType == INFO_FILE then [o.StatCall()]
    else if infoType == INFO_FILESYSTEM && (infoClass == 0x07 || infoClass == 0x03) then [Statfs(o.share)]
    else []
  }

  /** The sizes, from the parts [MS-FSCC] lists: FileAllInformation is the basic (40) and standard (24) parts, the
      id (8), extended attributes (4), access (4), position (8), mode (4), alignment (4), and a counted name. */
  lemma InfoSizesAdd(base: string, volume: string)
    ensures InfoSize(1, 18, base, volume)
      == Some(40 + 24 + 8 + 4 + 4 + 8 + 4 + 4 + (4 + if base == "" then 2 else |Utf16.NameBytes(base)|))
    ensures InfoSize(1, 4, base, volume) == Some(4 * 8 + 4 + 4) && InfoSize(1, 5, base, volume) == Some(8 + 8 + 4 + 4)
    ensures InfoSize(1, 6, base, volume) == Some(8) && InfoSize(1, 7, base, volume) == Some(4)
    ensures InfoSize(1, 34, base, volume) == Some(6 * 8 + 4 + 4) && InfoSize(1, 35, base, volume) == Some(4 + 4)
    ensures InfoSize(2, 1, base, volume) == Some(8 + 4 + 4 + 2 + |Utf16.NameBytes(volume)|)
    ensures InfoSize(2, 3, base, volume) == Some(8 + 8 + 4 + 4) && InfoSize(2, 7, base, volume) == Some(3 * 8 + 4 + 4)
    ensures InfoSize(2, 4, base, volume) == Some(4 + 4) && InfoSize(2, 5, base, volume) == Some(4 + 4 + 4 + 2 * |"psmb"|)
  {
    if base != "" { assert |Utf16.Encode(base)| >= 1; }
  }

  /** What QUERY_DIRECTORY asks the backend: nothing once the listing is there, one Stat for a plain name, and
      ReadDir for anything else. */
  function ListingCalls(o: Open, q: Enumerate.Query): Log {
    if o.listing.loaded && !q.restart then []
    else if Enumerate.SingleName(q.pattern) then [Stat(o.share, Enumerate.JoinPath(o.path, q.pattern))]
    else [ReadDir(o.share, o.path)]
  }

  /** One call when the listing is not there or is to be started afresh: for a single name the child's Stat. */
  lemma ListingAsksOnce(o: Open, q: Enumerate.Query)
    ensures if o.listing.loaded && !q.restart then ListingCalls(o, q) == []
      else ListingCalls(o, q) == [
        if q.pattern != "" && forall i :: 0 <= i < |q.pattern| ==> q.pattern[i] !in "*?<>\"" then
          Stat(o.share, if o.path == "" then q.pattern else o.path + "/" + q.pattern)
        else ReadDir(o.share, o.path)]
  {
  }

  /** The backend's answer, as the enumeration takes it. */
  function ListingAnswers(q: Enumerate.Query, a: Answer): Enumerate.Answers {
    if Enumerate.SingleName(q.pattern) then Enumerate.Answers(if a.Ok? then Some(a.entry) else None, None)
    else Enumerate.Answers(None, if a.Ok? then Some(a.entries) else None)
  }

  const DISPOSITION: byte := 0x0D
  const END_OF_FILE_INFO: byte := 0x14
  const ALLOCATION: byte := 0x13
  const RENAME: byte := 0x0A
  const BASIC: byte := 0x04

  // ----- what a request does to the table, and who removes files -----

  /** No file is removed by the calls made since. */
  ghost predicate NoRemoves(log: Log, log': Log) {
    log <= log' && forall i :: |log| <= i < |log'| ==> !log'[i].Remove?
  }

  /** The table is the same but for how far its folders have been listed. */
  ghost predicate SameButListings(t: Table, t': Table) {
    t'.Keys == t.Keys && forall id :: id in t ==> t'[id] == t[id].(listing := t'[id].listing)
  }

  /** CREATE: one open more, with the path asked for and marked for deletion if that was asked for (bit 12). */
  ghost predicate CreateRight(q: CreateRequest, created: Option<nat>, t: Table, t': Table) {
    if created.None? then t' == t
    else
      var id := FileIdOf(created.value);
      && id !in t && id in t' && t' == t[id := t'[id]]
      && t'[id].path == q.path && (t'[id].deleteOnClose <==> q.options / 0x1000 % 2 == 1)
  }

  /** The request sets or clears the mark, or names a new path. */
  predicate ChangesMark(infoType: byte, infoClass: byte, buf: bytes) {
    infoType == 1 && infoClass == 13 && |buf| >= 1
  }

  predicate ChangesPath(infoType: byte, infoClass: byte, buf: bytes) {
    infoType == 1 && infoClass == 10 && |buf| >= 20 && 20 + U32At(buf, 16) <= |buf|
  }

  /** SET_INFO: when it succeeds, the mark or the path of the open it names are as it says; nothing else
      changes. */
  ghost predicate SetRight(names: Names, id: FileId, infoType: byte, infoClass: byte, buf: bytes, status: u32,
    t: Table, t': Table)
  {
    && t'.Keys == t.Keys && (forall jd :: jd in t && jd != id ==> t'[jd] == t[jd])
    && (id in t ==> t'[id] == AfterSet(names, t[id], infoType, infoClass, buf, status))
  }

  function AfterSet(names: Names, o: Open, infoType: byte, infoClass: byte, buf: bytes, status: u32): Open {
    if status != 0 then o
    else if ChangesMark(infoType, infoClass, buf) then o.(deleteOnClose := buf[0] != 0)
    else if ChangesPath(infoType, infoClass, buf) then o.(path := names.toPath(buf[20..20 + U32At(buf, 16)]))
    else o
  }

  lemma CreateIsRight(oracle: Oracle, disk: map<u32, Share>, pipes: set<u32>, q: CreateRequest, log: Log, t: Table,
      counter: nat)
    requires Orderly(t, counter) && counter + 1 < 0x1_0000_0000_0000_0000
    ensures var made := CreateOn(oracle, disk, pipes, q, log, t, counter);
      && NoRemoves(log, made.log)
      && CreateRight(q, if made.status == SUCCESS then Some(made.counter) else None, t, made.table)
  {
    FreshId(t, counter);
    CreateAddsOneOpen(oracle, disk, pipes, q, log, t, counter);
  }

  /** What one request does, in terms of the table and the calls. */
  ghost predicate StepRight(oracle: Oracle, names: Names, r: Request, reply: Reply, t: Table, t': Table, log: Log) {
    var log' := log + reply.calls;
    if r.CloseFile? then
      && t' == t - {r.file}
      && if r.file in t then RightlyEnded(oracle, t[r.file], log, log', reply.status) else reply.calls == []
    else
      && NoRemoves(log, log')
      && if r.Create? then CreateRight(r.create, reply.created, t, t')
        else if r.SetInfo? then SetRight(names, r.file, r.infoType, r.infoClass, r.buf, reply.status, t, t')
        else SameButListings(t, t')
  }

  // ----- the connection -----

  /** How names are read: a name in a request as a path, whether two paths differ at most in case, the last
      part of a path, how a share's backend compares names, and the stable id of a path on a share. */
  datatype Names = Names(
    toPath: bytes -> Path, sameFold: (Path, Path) -> bool, base: Path -> string,
    folding: Share -> Enumerate.Folding, fileId: (string, Path) -> u64)

  class Conn {
    const backend: Backend
    const names: Names
    var disk: map<u32, Share>
    var pipes: set<u32>
    var handles: Table
    var handleCtr: nat

    ghost predicate Valid()
      reads this, backend
    {
      Kept(backend.oracle, backend.log, handles, handleCtr)
    }

    constructor (backend: Backend, names: Names)
      requires backend.log == []
      ensures Valid() && this.backend == backend && handles == map[] && handleCtr == 0
      ensures this.names == names && disk == map[] && pipes == {}
    {
      this.backend, this.names := backend, names;
      disk, pipes, handles, handleCtr := map[], {}, map[], 0;
      new;
      assert LiveIn(handles) == {};
    }

    /** A call that neither opens nor closes a handle. */
    method Ask(c: Call) returns (a: Answer)
      requires Valid() && !c.OpenFile? && !c.Close? && (Mutating(c) ==> !c.share.readOnly)
      modifies backend
      ensures Valid() && backend.log == old(backend.log) + [c] && a == backend.oracle(backend.log)
    {
      a := backend.Do(c, LiveIn(handles));
    }

    // ----- CREATE -----

    method HandleCreate(q: CreateRequest) returns (status: u32)
      requires Valid() && handleCtr + 1 < 0x1_0000_0000_0000_0000
      modifies this`handles, this`handleCtr, backend
      ensures Valid() && Retires(old(handles), old(handleCtr), handles, handleCtr)
      ensures old(backend.log) <= backend.log && handleCtr == old(handleCtr) + (if status == SUCCESS then 1 else 0)
      ensures Made(status, backend.log, handles, handleCtr)
        == CreateOn(backend.oracle, disk, pipes, q, old(backend.log), old(handles), old(handleCtr))
      ensures NoRemoves(old(backend.log), backend.log)
      ensures CreateRight(q, if status == SUCCESS then Some(handleCtr) else None, old(handles), handles)
    {
      CreateIsRight(backend.oracle, disk, pipes, q, backend.log, handles, handleCtr);
      if q.tree in pipes { return OBJECT_NAME_NOT_FOUND; }
      if |handles| >= MAX_OPEN { return INSUFFICIENT_RESOURCES; }
      if q.tree !in disk { return NETWORK_NAME_DELETED; }
      status := CreateOnShare(disk[q.tree], q);
    }

    method CreateOnShare(share: Share, q: CreateRequest) returns (status: u32)
      requires Valid() && |handles| < MAX_OPEN && handleCtr + 1 < 0x1_0000_0000_0000_0000
      modifies this`handles, this`handleCtr, backend
      ensures Valid() && Retires(old(handles), old(handleCtr), handles, handleCtr)
      ensures old(backend.log) <= backend.log && handleCtr == old(handleCtr) + (if status == SUCCESS then 1 else 0)
      ensures var asked := old(backend.log) + [Stat(share, q.path)];
        Made(status, backend.log, handles, handleCtr) == CarriedOut(backend.oracle, share, q,
          PlanCreate(share, q, backend.oracle(asked)), asked, old(handles), old(handleCtr))
    {
      var found := Ask(Stat(share, q.path));
      var plan := PlanCreate(share, q, found);
      if share.readOnly { PlanOnReadOnlyShare(share, q, found); }
      status := CarryOut(share, q, plan);
    }

    method CarryOut(share: Share, q: CreateRequest, plan: Plan) returns (status: u32)
      requires Valid() && |handles| < MAX_OPEN && handleCtr + 1 < 0x1_0000_0000_0000_0000
      requires share.readOnly && !plan.Refuse? ==> !plan.MakeDirectory? && !IsDeleteOnClose(q.options)
      requires share.readOnly && plan.OpenPath? ==> plan.flags == RDONLY
      modifies this`handles, this`handleCtr, backend
      ensures Valid() && Retires(old(handles), old(handleCtr), handles, handleCtr)
      ensures old(backend.log) <= backend.log && handleCtr == old(handleCtr) + (if status == SUCCESS then 1 else 0)
      ensures Made(status, backend.log, handles, handleCtr)
        == CarriedOut(backend.oracle, share, q, plan, old(backend.log), old(handles), old(handleCtr))
    {
      match plan
      case Refuse(st) => status := st;
      case OpenDirectory => status := FinishCreate(NewOpen(share, q, None));
      case MakeDirectory => status := MakeFolder(share, q);
      case OpenPath(flags) => status := OpenFileOn(share, q, flags);
    }

    method OpenFileOn(share: Share, q: CreateRequest, flags: Flags) returns (status: u32)
      requires Valid() && |handles| < MAX_OPEN && handleCtr + 1 < 0x1_0000_0000_0000_0000
      requires share.readOnly ==> !IsDeleteOnClose(q.options) && flags == RDONLY
      modifies this`handles, this`handleCtr, backend
      ensures Valid() && Retires(old(handles), old(handleCtr), handles, handleCtr)
      ensures old(backend.log) <= backend.log && handleCtr == old(handleCtr) + (if status == SUCCESS then 1 else 0)
      ensures var log, o := old(backend.log), NewOpen(share, q, Some(|old(backend.log)|));
        var reached := log + [OpenFile(share, q.path, flags)];
        Made(status, backend.log, handles, handleCtr) ==
          if backend.oracle(reached).Fail? then Made(backend.oracle(reached).status, reached, old(handles), old(handleCtr))
          else Entered(o, reached, old(handles), old(handleCtr))
    {
      var o := NewOpen(share, q, Some(|backend.log|));
      ghost var reached := backend.log + [OpenFile(share, q.path, flags)];
      var answer := backend.Open(share, q.path, flags, LiveIn(handles));
      assert backend.log == reached;
      if answer.Fail? { return answer.status; }
      assert o.Handles() == {|old(backend.log)|};
      status := FinishCreate(o);
    }

    method MakeFolder(share: Share, q: CreateRequest) returns (status: u32)
      requires Valid() && |handles| < MAX_OPEN && handleCtr + 1 < 0x1_0000_0000_0000_0000 && !share.readOnly
      modifies this`handles, this`handleCtr, backend
      ensures Valid() && Retires(old(handles), old(handleCtr), handles, handleCtr)
      ensures old(backend.log) <= backend.log && handleCtr == old(handleCtr) + (if status == SUCCESS then 1 else 0)
      ensures Made(status, backend.log, handles, handleCtr)
        == CarriedOut(backend.oracle, share, q, MakeDirectory, old(backend.log), old(handles), old(handleCtr))
    {
      var made := Ask(Mkdir(share, q.path));
      if made.Fail? { return made.status; }
      var there := Ask(Stat(share, q.path));
      if there.Fail? { return there.status; }
      status := FinishCreate(NewOpen(share, q, None));
    }

    /** newFileID and addHandle */
    method AddHandle(o: Open)
      requires Orderly(handles, handleCtr) && |handles| < MAX_OPEN && handleCtr + 1 < 0x1_0000_0000_0000_0000
      requires o.Handles() !! LiveIn(handles) && (o.share.readOnly ==> !o.deleteOnClose)
      requires Conserved(backend.oracle, backend.log, LiveIn(handles) + o.Handles()) && SparesReadOnly(backend.log)
      modifies this`handles, this`handleCtr
      ensures Valid() && Retires(old(handles), old(handleCtr), handles, handleCtr)
      ensures handles == Added(old(handles), old(handleCtr), o) && handleCtr == old(handleCtr) + 1
    {
      KeptAfterAdd(backend.oracle, backend.log, handles, handleCtr, o);
      handles, handleCtr := Added(handles, handleCtr, o), handleCtr + 1;
    }

    /** The end of CREATE: the open enters the table and its attributes are looked up for the reply. */
    method FinishCreate(o: Open) returns (status: u32)
      requires Orderly(handles, handleCtr) && |handles| < MAX_OPEN && handleCtr + 1 < 0x1_0000_0000_0000_0000
      requires o.Handles() !! LiveIn(handles) && (o.share.readOnly ==> !o.deleteOnClose)
      requires Conserved(backend.oracle, backend.log, LiveIn(handles) + o.Handles()) && SparesReadOnly(backend.log)
      modifies this`handles, this`handleCtr, backend
      ensures Valid() && Retires(old(handles), old(handleCtr), handles, handleCtr) && old(backend.log) <= backend.log
      ensures Made(status, backend.log, handles, handleCtr) == Entered(o, old(backend.log), old(handles), old(handleCtr))
    {
      AddHandle(o);
      var attrs := Ask(o.StatCall());
      return SUCCESS;
    }
  
    // ----- CLOSE -----

    method HandleClose(id: FileId, postQuery: bool) returns (status: u32)
      requires Valid()
      modifies this`handles, backend
      ensures Valid() && Retires(old(handles), handleCtr, handles, handleCtr) && old(backend.log) <= backend.log
      ensures handles == old(handles) - {id}
      ensures id !in old(handles) ==> status == SUCCESS && backend.log == old(backend.log)
      ensures id in old(handles) ==>
        && (status, backend.log) == Ended(backend.oracle, old(handles)[id], postQuery, old(backend.log))
        && RightlyEnded(backend.oracle, old(handles)[id], old(backend.log), backend.log, status)
    {
      if id !in handles {
        assert handles == handles - {id};
        return SUCCESS;
      }
      EndedRightly(backend.oracle, handles[id], postQuery, backend.log);
      var o := RemoveHandle(id);
      status := EndOpen(o, postQuery);
    }

    /** removeHandle: the backend handle stays to be closed. */
    method RemoveHandle(id: FileId) returns (o: Open)
      requires Valid() && id in handles
      modifies this`handles
      ensures o == old(handles)[id] && handles == old(handles) - {id} && Orderly(handles, handleCtr)
      ensures o.Handles() !! LiveIn(handles) && (o.share.readOnly ==> !o.deleteOnClose)
      ensures Conserved(backend.oracle, backend.log, LiveIn(handles) + o.Handles())
      ensures Retires(old(handles), handleCtr, handles, handleCtr)
    {
      o := handles[id];
      AfterRemove(handles, handleCtr, id);
      handles := handles - {id};
      assert LiveIn(handles) + o.Handles() == LiveIn(old(handles));
    }

    method EndOpen(o: Open, postQuery: bool) returns (status: u32)
      requires Orderly(handles, handleCtr) && SparesReadOnly(backend.log)
      requires o.Handles() !! LiveIn(handles) && (o.share.readOnly ==> !o.deleteOnClose)
      requires Conserved(backend.oracle, backend.log, LiveIn(handles) + o.Handles())
      modifies backend
      ensures Valid() && old(backend.log) <= backend.log
      ensures (status, backend.log) == Ended(backend.oracle, o, postQuery, old(backend.log))
    {
      ghost var live := LiveIn(handles);
      if postQuery && !o.deleteOnClose {
        var attrs := backend.Do(o.StatCall(), live + o.Handles());
      }
      ghost var asked := backend.log;
      assert asked == old(backend.log) + (if postQuery && !o.deleteOnClose then [o.StatCall()] else []);
      status := CloseOpen(o, live);
      ghost var closed := backend.log;
      assert closed == asked + o.CloseCalls();
      if status == SUCCESS && o.deleteOnClose {
        var removed := backend.Do(Remove(o.share, o.path), live);
        status := removed.Status();
      }
    }

    /** The backend handle of an open, if it has one, is closed. */
    method CloseOpen(o: Open, ghost live: set<Handle>) returns (status: u32)
      requires o.Handles() !! live && Conserved(backend.oracle, backend.log, live + o.Handles()) && SparesReadOnly(backend.log)
      modifies backend
      ensures Conserved(backend.oracle, backend.log, live) && SparesReadOnly(backend.log)
      ensures backend.log == old(backend.log) + o.CloseCalls()
      ensures status == if o.handle.Some? then backend.oracle(backend.log).Status() else SUCCESS
    {
      if o.handle.None? {
        assert live + o.Handles() == live;
        return SUCCESS;
      }
      assert live + o.Handles() - {o.handle.value} == live;
      var closed := backend.Shut(o.share, o.handle.value, live + o.Handles());
      return closed.Status();
    }
  
    /** closeAllHandles: at the end of a connection whatever is still open is closed, and nothing else is done;
        files marked for deletion stay. */
    method Teardown()
      requires Valid()
      modifies this`handles, backend
      ensures Valid() && handles == map[] && old(backend.log) <= backend.log
      ensures forall i :: |old(backend.log)| <= i < |backend.log| ==> backend.log[i].Close?
      ensures forall h :: Closes(backend.log, h) == if Opened(backend.oracle, backend.log, h) then 1 else 0
    {
      var t := handles;
      while t != map[]
        invariant Kept(backend.oracle, backend.log, t, handleCtr)
        invariant old(backend.log) <= backend.log
        invariant forall i :: |old(backend.log)| <= i < |backend.log| ==> backend.log[i].Close?
        decreases |t|
      {
        var id :| id in t;
        AfterRemove(t, handleCtr, id);
        FewerKeys(t, id);
        assert LiveIn(t - {id}) + t[id].Handles() == LiveIn(t);
        var status := CloseOpen(t[id], LiveIn(t - {id}));
        t := t - {id};
      }
      handles := map[];
      assert LiveIn(handles) == {};
    }

    // ----- READ, WRITE, FLUSH, QUERY_INFO, QUERY_DIRECTORY -----

    /** The open a request is for, when it has a backend handle. */
    function FileOpen(id: FileId): Option<Open>
      reads this
    {
      if id in handles && handles[id].handle.Some? then Some(handles[id]) else None
    }

    method HandleRead(id: FileId, offset: u64, length: u32) returns (status: u32, data: bytes)
      requires Valid()
      modifies backend
      ensures Valid() && NoRemoves(old(backend.log), backend.log)
      ensures status != SUCCESS ==> data == []
      ensures var o := FileOpen(id);
        if o.None? || length > 0x10_0000 then status == INVALID_PARAMETER && backend.log == old(backend.log)
        else if length == 0 then status == SUCCESS && data == [] && backend.log == old(backend.log)
        else
          && backend.log == old(backend.log) + [ReadAt(o.value.share, o.value.handle.value, offset, length)]
          && var a := backend.oracle(backend.log);
            if a.Ok? && a.data != [] then status == SUCCESS && data == a.data
            else status == if a.Ok? then END_OF_FILE else a.status
    {
      data := [];
      var o := FileOpen(id);
      if o.None? || length > MAX_IO { status := INVALID_PARAMETER; return; }
      if length == 0 { status := SUCCESS; return; }
      var a := Ask(ReadAt(o.value.share, o.value.handle.value, offset, length));
      if a.Fail? { status := a.status; return; }
      if a.data == [] { status := END_OF_FILE; return; }
      status, data := SUCCESS, a.data;
    }

    method HandleWrite(id: FileId, offset: u64, dataOffset: int, length: u32, body: bytes) returns (status: u32)
      requires Valid()
      modifies backend
      ensures Valid() && NoRemoves(old(backend.log), backend.log)
      ensures var o := FileOpen(id);
        if o.None? then status == INVALID_PARAMETER && backend.log == old(backend.log)
        else if o.value.share.readOnly then status == WRITE_PROTECTED && backend.log == old(backend.log)
        else if length <= 0x10_0000 && 0 <= dataOffset && dataOffset + length <= |body| then
          && backend.log == old(backend.log)
            + [WriteAt(o.value.share, o.value.handle.value, offset, body[dataOffset..][..length])]
          && status == backend.oracle(backend.log).Status()
        else status == INVALID_PARAMETER && backend.log == old(backend.log)
    {
      var o := FileOpen(id);
      if o.None? { return INVALID_PARAMETER; }
      if o.value.share.readOnly { return WRITE_PROTECTED; }
      if length > MAX_IO || dataOffset < 0 || dataOffset + length > |body| { return INVALID_PARAMETER; }
      var a := Ask(WriteAt(o.value.share, o.value.handle.value, offset, body[dataOffset..][..length]));
      return a.Status();
    }

    method HandleFlush(id: FileId) returns (status: u32)
      requires Valid()
      modifies backend
      ensures Valid() && NoRemoves(old(backend.log), backend.log)
      ensures var o := FileOpen(id);
        if o.None? then status == SUCCESS && backend.log == old(backend.log)
        else
          && backend.log == old(backend.log) + [Sync(o.value.share, o.value.handle.value)]
          && status == backend.oracle(backend.log).Status()
    {
      var o := FileOpen(id);
      if o.None? { return SUCCESS; }
      var a := Ask(Sync(o.value.share, o.value.handle.value));
      return a.Status();
    }

    /** A class's answer is cut to the client's buffer, which its status then says. */
    method HandleQueryInfo(id: FileId, infoType: byte, infoClass: byte, outLen: u32) returns (status: u32)
      requires Valid()
      modifies backend
      ensures Valid() && NoRemoves(old(backend.log), backend.log)
      ensures if id !in handles then status == INVALID_PARAMETER && backend.log == old(backend.log)
        else
          var size := InfoSize(infoType, infoClass, names.base(handles[id].path), handles[id].share.name);
          && backend.log == old(backend.log) + InfoCalls(handles[id], infoType, infoClass)
          && status == if size.None? then NOT_SUPPORTED else if size.value > outLen then BUFFER_OVERFLOW else SUCCESS
    {
      if id !in handles { return INVALID_PARAMETER; }
      var o := handles[id];
      if infoType == INFO_FILE {
        var attrs := Ask(o.StatCall());
      } else if infoType == INFO_FILESYSTEM && (infoClass == 0x07 || infoClass == 0x03) {
        var sizes := Ask(Statfs(o.share));
      }
      var size := InfoSize(infoType, infoClass, names.base(o.path), o.share.name);
      if size.None? { return NOT_SUPPORTED; }
      return if size.value > outLen then BUFFER_OVERFLOW else SUCCESS;
    }

    /** What entries' records depend on in the open folder. */
    function DirOf(o: Open, aapl: bool): DirBuffer.Dir {
      DirBuffer.Dir(o.share.readOnly, name => names.fileId(o.share.name, Enumerate.JoinPath(o.path, name)), aapl)
    }

    /** Entries' ids are those of their paths; the share's read-only setting shows in the macOS layout. */
    lemma DirMeans(o: Open, aapl: bool, name: string)
      ensures var dir := DirOf(o, aapl);
        && dir.readOnly == o.share.readOnly && dir.aapl == aapl
        && dir.fileId(name) == names.fileId(o.share.name, if o.path == "" then name else o.path + "/" + name)
    {
      assert Enumerate.JoinPath(o.path, name) == if o.path == "" then name else o.path + "/" + name;
    }

    method HandleQueryDirectory(id: FileId, q: Enumerate.Query, aapl: bool) returns (status: u32, page: bytes)
      requires Valid()
      modifies this`handles, backend
      ensures Valid() && Retires(old(handles), handleCtr, handles, handleCtr)
      ensures id !in old(handles) || !old(handles)[id].isDir ==>
        status == INVALID_PARAMETER && backend.log == old(backend.log) && handles == old(handles)
      ensures id in old(handles) && old(handles)[id].isDir ==>
        var o := old(handles)[id];
        && backend.log == old(backend.log) + ListingCalls(o, q)
        && id in handles && handles == old(handles)[id := o.(listing := handles[id].listing)]
        && status in [SUCCESS, NO_MORE_FILES]
        && Enumerate.Answered(names.folding(o.share), DirOf(o, aapl), o.listing, q,
          ListingAnswers(q, backend.oracle(backend.log)), handles[id].listing,
          if status == SUCCESS then Enumerate.Page(page) else Enumerate.NoMoreFiles)
    {
      page := [];
      if id !in handles || !handles[id].isDir { status := INVALID_PARAMETER; return; }
      var o := handles[id];
      var a := AskListing(o, q);
      var cursor, reply := Enumerate.Serve(names.folding(o.share), DirOf(o, aapl), o.listing, q, a);
      AfterUpdate(handles, handleCtr, id, o.(listing := cursor));
      handles := handles[id := o.(listing := cursor)];
      if reply.NoMoreFiles? { status := NO_MORE_FILES; } else { status, page := SUCCESS, reply.buf; }
    }

    /** A listing removes nothing and leaves opens as they are. */
    method HandleListing(id: FileId, q: Enumerate.Query, aapl: bool) returns (status: u32)
      requires Valid()
      modifies this`handles, backend
      ensures Valid() && Retires(old(handles), handleCtr, handles, handleCtr)
      ensures NoRemoves(old(backend.log), backend.log) && SameButListings(old(handles), handles)
      ensures id !in old(handles) ==> status == INVALID_PARAMETER && backend.log == old(backend.log)
    {
      if id in handles { OneListing(handles, id); }
      var page;
      status, page := HandleQueryDirectory(id, q, aapl);
    }

    lemma OneListing(t: Table, id: FileId)
      requires id in t
      ensures forall cursor :: SameButListings(t, t[id := t[id].(listing := cursor)])
    {
    }

    method AskListing(o: Open, q: Enumerate.Query) returns (a: Enumerate.Answers)
      requires Valid()
      modifies backend
      ensures Valid() && backend.log == old(backend.log) + ListingCalls(o, q)
      ensures a == ListingAnswers(q, backend.oracle(backend.log))
    {
      if o.listing.loaded && !q.restart {
        a := ListingAnswers(q, backend.oracle(backend.log));
      } else if Enumerate.SingleName(q.pattern) {
        var found := Ask(Stat(o.share, Enumerate.JoinPath(o.path, q.pattern)));
        a := ListingAnswers(q, found);
      } else {
        var listed := Ask(ReadDir(o.share, o.path));
        a := ListingAnswers(q, listed);
      }
    }

    // ----- SET_INFO -----

    /** Whether an open may be written to: its share must not be read-only, nor the file itself, which is asked
        for. */
    function GateStatus(o: Open, log: Log): u32 {
      if o.share.readOnly then WRITE_PROTECTED
      else if backend.oracle(log + [o.StatCall()]).IsReadOnlyFile() then ACCESS_DENIED
      else SUCCESS
    }

    function GateLog(o: Open, log: Log): Log { if o.share.readOnly then log else log + [o.StatCall()] }

    /** Marking or unmarking for deletion: a directory with anything in it cannot be marked. */
    function Disposed(o: Open, delete: bool, log: Log): Outcome {
      if !delete then Outcome(SUCCESS, log, o.(deleteOnClose := false))
      else
        var asked := GateLog(o, log);
        var listed := asked + [ReadDir(o.share, o.path)];
        if GateStatus(o, log) != SUCCESS then Outcome(GateStatus(o, log), asked, o)
        else if !o.isDir then Outcome(SUCCESS, asked, o.(deleteOnClose := true))
        else if backend.oracle(listed).Ok? && backend.oracle(listed).entries != [] then Outcome(DIRECTORY_NOT_EMPTY, listed, o)
        else Outcome(SUCCESS, listed, o.(deleteOnClose := true))
    }

    function Resized(o: Open, size: u64, log: Log): Outcome {
      var asked := GateLog(o, log);
      var cut := asked + [o.TruncateCall(size)];
      if GateStatus(o, log) != SUCCESS then Outcome(GateStatus(o, log), asked, o)
      else Outcome(backend.oracle(cut).Status(), cut, o)
    }

    /** The new path in a rename request, if its name lies inside the buffer. */
    function NewPath(buf: bytes): Option<Path> {
      if |buf| >= 20 && 20 + U32At(buf, 16) <= |buf| then Some(names.toPath(buf[20..20 + U32At(buf, 16)])) else None
    }

    /** A rename never replaces a file unless it is asked to; a name that differs only in case is no other file. */
    function Renamed(o: Open, buf: bytes, log: Log): Outcome {
      var asked := GateLog(o, log);
      if GateStatus(o, log) != SUCCESS || NewPath(buf).None? then Outcome(GateStatus(o, log), asked, o)
      else
        var path := NewPath(buf).value;
        var looks := buf[0] == 0 && !names.sameFold(path, o.path);
        var looked := if looks then asked + [Stat(o.share, path)] else asked;
        var moved := looked + [Rename(o.share, o.path, path)];
        if looks && backend.oracle(looked).Ok? then Outcome(NAME_COLLISION, looked, o)
        else if backend.oracle(moved).Fail? then Outcome(backend.oracle(moved).status, moved, o)
        else Outcome(SUCCESS, moved, o.(path := path))
    }

    /** Timestamps are set only where writing is allowed, and the request succeeds in any case. */
    function Touched(o: Open, buf: bytes, log: Log): Outcome {
      if |buf| < 32 || U64At(buf, 16) == 0 then Outcome(SUCCESS, log, o)
      else if GateStatus(o, log) != SUCCESS then Outcome(SUCCESS, GateLog(o, log), o)
      else Outcome(SUCCESS, GateLog(o, log) + [Chtimes(o.share, o.path, U64At(buf, 16))], o)
    }

    function SetInfoOn(o: Open, infoClass: byte, buf: bytes, log: Log): Outcome {
      if infoClass == DISPOSITION then
        if |buf| >= 1 then Disposed(o, buf[0] != 0, log) else Outcome(SUCCESS, log, o)
      else if infoClass == END_OF_FILE_INFO then
        if |buf| >= 8 then Resized(o, U64At(buf, 0), log) else Outcome(SUCCESS, log, o)
      else if infoClass == ALLOCATION then Outcome(GateStatus(o, log), GateLog(o, log), o)
      else if infoClass == RENAME then Renamed(o, buf, log)
      else if infoClass == BASIC then Touched(o, buf, log)
      else Outcome(INVALID_INFO_CLASS, log, o)
    }

    /** Failing changes nothing of the open, and the backend sees at most one call that changes anything, the
        last one, and none at all on a read-only share. */
    static ghost predicate AllOrNothing(o: Open, log: Log, out: Outcome) {
      && log <= out.log && (out.status != SUCCESS ==> out.o == o)
      && (forall i :: |log| <= i < |out.log| && Mutating(out.log[i]) ==> i == |out.log| - 1 && !o.share.readOnly)
      && (out.o.path != o.path ==> |out.log| > 0 && out.log[|out.log| - 1] == Rename(o.share, o.path, out.o.path))
      && NoRemoves(log, out.log)
    }

    lemma RenamedIsAllOrNothing(o: Open, buf: bytes, log: Log)
      ensures AllOrNothing(o, log, Renamed(o, buf, log))
    {
    }

    /** A rename reaches the backend only when it was asked to replace, when the names differ at most in case,
        or right after the target was looked for and not found. */
    lemma RenameAsksFirst(o: Open, buf: bytes, log: Log)
      ensures var out := Renamed(o, buf, log); var n := |out.log|;
        n > |log| && out.log[n - 1].Rename? ==>
          || buf[0] != 0 || names.sameFold(out.log[n - 1].to, o.path)
          || (n > 1 && out.log[n - 2] == Stat(o.share, out.log[n - 1].to) && backend.oracle(out.log[..n - 1]).Fail?)
    {
      var out := Renamed(o, buf, log);
      if |out.log| > |log| && out.log[|out.log| - 1].Rename? && buf[0] == 0 && !names.sameFold(NewPath(buf).value, o.path) {
        assert out.log[..|out.log| - 1] == GateLog(o, log) + [Stat(o.share, NewPath(buf).value)];
      }
    }

    /** An open is newly marked for deletion only on a writable share, when the file may be written, and when the
        last look into a folder found nothing, or could not be taken. */
    lemma MarkedOnlyWhenEmpty(o: Open, delete: bool, log: Log)
      requires Disposed(o, delete, log).o.deleteOnClose && !o.deleteOnClose
      ensures delete && GateStatus(o, log) == SUCCESS && !o.share.readOnly
      ensures o.isDir ==> var out := Disposed(o, delete, log);
        && |out.log| > 0 && out.log[|out.log| - 1] == ReadDir(o.share, o.path)
        && (backend.oracle(out.log).Ok? ==> backend.oracle(out.log).entries == [])
    {
    }

    lemma DisposedIsAllOrNothing(o: Open, delete: bool, log: Log)
      ensures AllOrNothing(o, log, Disposed(o, delete, log))
    {
    }

    lemma ResizedIsAllOrNothing(o: Open, size: u64, log: Log)
      ensures AllOrNothing(o, log, Resized(o, size, log))
    {
    }

    lemma TouchedIsAllOrNothing(o: Open, buf: bytes, log: Log)
      ensures AllOrNothing(o, log, Touched(o, buf, log))
    {
    }

    lemma SetInfoIsAllOrNothing(o: Open, infoClass: byte, buf: bytes, log: Log)
      ensures AllOrNothing(o, log, SetInfoOn(o, infoClass, buf, log))
    {
      if infoClass == DISPOSITION {
        DisposedIsAllOrNothing(o, |buf| >= 1 && buf[0] != 0, log);
      } else if infoClass == END_OF_FILE_INFO {
        ResizedIsAllOrNothing(o, if |buf| >= 8 then U64At(buf, 0) else 0, log);
      } else if infoClass == RENAME {
        RenamedIsAllOrNothing(o, buf, log);
      } else if infoClass == BASIC {
        TouchedIsAllOrNothing(o, buf, log);
      }
    }

    lemma SetInfoChanges(o: Open, infoClass: byte, buf: bytes, log: Log)
      ensures var out := SetInfoOn(o, infoClass, buf, log);
        out.o == AfterSet(names, o, INFO_FILE, infoClass, buf, out.status)
    {
    }

    /** The share and, as far as it can be looked up, the file may be written. */
    ghost predicate Writable(o: Open, log: Log) {
      var a := backend.oracle(log + [if o.handle.Some? then HandleStat(o.share, o.handle.value) else Stat(o.share, o.path)]);
      !o.share.readOnly && !(a.Ok? && a.entry.readOnly && !a.entry.isDir)
    }

    /** What is not writable is refused, by the share or by the file, with at most the one look at it. */
    ghost predicate RefusedAt(o: Open, log: Log, out: Outcome) {
      && out.o == o && out.status == (if o.share.readOnly then 0xC000_00A2 else 0xC000_0022)
      && |out.log| == |log| + (if o.share.readOnly then 0 else 1)
    }

    /** Class 20, the end of file: truncation to the 8 bytes' number, whose answer is the reply's. */
    lemma TruncatesExactly(o: Open, buf: bytes, log: Log)
      requires |buf| >= 8
      ensures var out := SetInfoOn(o, 20, buf, log); var n := |out.log|;
        if !Writable(o, log) then RefusedAt(o, log, out)
        else
          && n == |log| + 2 && out.log[n - 1] == o.TruncateCall(U64At(buf, 0)) && out.o == o
          && out.status == if backend.oracle(out.log).Fail? then backend.oracle(out.log).status else 0
    {
    }

    /** Class 13, the disposition: the mark is cleared, or set on what is writable and no folder with entries. */
    lemma MarksExactly(o: Open, buf: bytes, log: Log)
      requires |buf| >= 1
      ensures var out := SetInfoOn(o, 13, buf, log); var n := |out.log|;
        if buf[0] == 0 then out == Outcome(0, log, o.(deleteOnClose := false))
        else if !Writable(o, log) then RefusedAt(o, log, out)
        else if !o.isDir then out.status == 0 && out.o == o.(deleteOnClose := true)
        else
          && n == |log| + 2 && out.log[n - 1] == ReadDir(o.share, o.path)
          && var empty := backend.oracle(out.log).Fail? || backend.oracle(out.log).entries == [];
            (out.status, out.o) == if empty then (0, o.(deleteOnClose := true)) else (0xC000_0101, o)
    {
    }

    /** Class 10, a new name: sent unless it would replace what is there without being asked to; the open follows
        a rename that succeeds. */
    lemma RenamesExactly(o: Open, buf: bytes, log: Log)
      requires |buf| >= 20 && 20 + U32At(buf, 16) <= |buf|
      ensures var out := SetInfoOn(o, 10, buf, log); var n := |out.log|;
        var path := names.toPath(buf[20..20 + U32At(buf, 16)]);
        if !Writable(o, log) then RefusedAt(o, log, out)
        else if out.status == 0xC000_0035 && n > 0 && !out.log[n - 1].Rename? then
          && buf[0] == 0 && !names.sameFold(path, o.path) && out.o == o
          && out.log[n - 1] == Stat(o.share, path) && backend.oracle(out.log).Ok?
        else
          && n > |log| && out.log[n - 1] == Rename(o.share, o.path, path)
          && (if backend.oracle(out.log).Fail? then out.status == backend.oracle(out.log).status && out.o == o
              else out.status == 0 && out.o == o.(path := path))
    {
    }

    /** Class 4, times: the last-write time at 16, when it is not zero and the file is writable. */
    lemma SetsTimesExactly(o: Open, buf: bytes, log: Log)
      requires |buf| >= 32
      ensures var out := SetInfoOn(o, 4, buf, log); var n := |out.log|;
        && out.status == 0 && out.o == o
        && ((n > 0 && n > |log| && out.log[n - 1] == Chtimes(o.share, o.path, U64At(buf, 16)))
            <==> U64At(buf, 16) != 0 && Writable(o, log))
    {
    }

    /** Class 19 changes nothing, and other classes, and buffers too short, neither look nor change. */
    lemma OtherClasses(o: Open, infoClass: byte, buf: bytes, log: Log)
      ensures var out := SetInfoOn(o, infoClass, buf, log);
        && (infoClass == 19 ==> out.o == o && if Writable(o, log) then out.status == 0 else RefusedAt(o, log, out))
        && (infoClass !in [4, 10, 13, 19, 20] ==> out == Outcome(0xC000_0003, log, o))
        && ((infoClass == 13 && buf == []) || (infoClass == 20 && |buf| < 8) || (infoClass == 4 && |buf| < 32) ==>
              out == Outcome(0, log, o))
    {
    }

    method HandleSetInfo(id: FileId, inBounds: bool, infoType: byte, infoClass: byte, buf: bytes) returns (status: u32)
      requires Valid()
      modifies this`handles, backend
      ensures Valid() && Retires(old(handles), handleCtr, handles, handleCtr)
      ensures NoRemoves(old(backend.log), backend.log)
      ensures SetRight(names, id, infoType, infoClass, buf, status, old(handles), handles)
      ensures id !in old(handles) || !inBounds ==> status == INVALID_PARAMETER
      ensures id in old(handles) && inBounds && infoType != INFO_FILE ==> status == NOT_SUPPORTED
      ensures id !in old(handles) || !inBounds || infoType != INFO_FILE ==>
        handles == old(handles) && backend.log == old(backend.log)
      ensures id in old(handles) && inBounds && infoType == INFO_FILE ==>
        var out := SetInfoOn(old(handles)[id], infoClass, buf, old(backend.log));
        status == out.status && backend.log == out.log && handles == old(handles)[id := out.o]
    {
      if id !in handles || !inBounds { return INVALID_PARAMETER; }
      if infoType != INFO_FILE { return NOT_SUPPORTED; }
      SetIsRight(handles, id, infoClass, buf, backend.log);
      status := SetOn(id, infoClass, buf);
    }

    /** A successful SET_INFO in terms of the table. */
    lemma SetIsRight(t: Table, id: FileId, infoClass: byte, buf: bytes, log: Log)
      requires id in t
      ensures var out := SetInfoOn(t[id], infoClass, buf, log);
        NoRemoves(log, out.log) && SetRight(names, id, INFO_FILE, infoClass, buf, out.status, t, t[id := out.o])
    {
      SetInfoIsAllOrNothing(t[id], infoClass, buf, log);
      SetInfoChanges(t[id], infoClass, buf, log);
    }

    method SetOn(id: FileId, infoClass: byte, buf: bytes) returns (status: u32)
      requires Valid() && id in handles
      modifies this`handles, backend
      ensures Valid() && Retires(old(handles), handleCtr, handles, handleCtr)
      ensures var out := SetInfoOn(old(handles)[id], infoClass, buf, old(backend.log));
        status == out.status && backend.log == out.log && handles == old(handles)[id := out.o]
    {
      var o';
      status, o' := SetByClass(handles[id], infoClass, buf);
      AfterUpdate(handles, handleCtr, id, o');
      handles := handles[id := o'];
    }

    method SetByClass(o: Open, infoClass: byte, buf: bytes) returns (status: u32, o': Open)
      requires Valid()
      modifies backend
      ensures Valid() && SetInfoOn(o, infoClass, buf, old(backend.log)) == Outcome(status, backend.log, o')
      ensures o' == o.(path := o'.path, deleteOnClose := o'.deleteOnClose)
      ensures o'.deleteOnClose && !o.deleteOnClose ==> !o.share.readOnly
    {
      status, o' := SUCCESS, o;
      if infoClass == DISPOSITION {
        if |buf| >= 1 { status, o' := SetDisposition(o, buf[0] != 0); }
      } else if infoClass == END_OF_FILE_INFO {
        if |buf| >= 8 { status := SetEndOfFile(o, U64At(buf, 0)); }
      } else if infoClass == ALLOCATION {
        status := PassGate(o);
      } else if infoClass == RENAME {
        status, o' := SetName(o, buf);
      } else if infoClass == BASIC {
        SetTimes(o, buf);
      } else {
        status := INVALID_INFO_CLASS;
      }
    }

    method PassGate(o: Open) returns (status: u32)
      requires Valid()
      modifies backend
      ensures Valid() && backend.log == GateLog(o, old(backend.log)) && status == GateStatus(o, old(backend.log))
    {
      if o.share.readOnly { return WRITE_PROTECTED; }
      var a := Ask(o.StatCall());
      return if a.IsReadOnlyFile() then ACCESS_DENIED else SUCCESS;
    }

    method SetDisposition(o: Open, delete: bool) returns (status: u32, o': Open)
      requires Valid()
      modifies backend
      ensures Valid() && Disposed(o, delete, old(backend.log)) == Outcome(status, backend.log, o')
      ensures o' == o.(deleteOnClose := o'.deleteOnClose) && (o'.deleteOnClose && !o.deleteOnClose ==> !o.share.readOnly)
    {
      if !delete { return SUCCESS, o.(deleteOnClose := false); }
      status := PassGate(o);
      if status != SUCCESS { return status, o; }
      if o.isDir {
        var a := Ask(ReadDir(o.share, o.path));
        if a.Ok? && a.entries != [] { return DIRECTORY_NOT_EMPTY, o; }
      }
      return SUCCESS, o.(deleteOnClose := true);
    }

    method SetEndOfFile(o: Open, size: u64) returns (status: u32)
      requires Valid()
      modifies backend
      ensures Valid() && Resized(o, size, old(backend.log)) == Outcome(status, backend.log, o)
    {
      status := PassGate(o);
      if status != SUCCESS { return; }
      var a := Ask(o.TruncateCall(size));
      return a.Status();
    }

    method SetName(o: Open, buf: bytes) returns (status: u32, o': Open)
      requires Valid()
      modifies backend
      ensures Valid() && Renamed(o, buf, old(backend.log)) == Outcome(status, backend.log, o')
      ensures o' == o.(path := o'.path)
    {
      status := PassGate(o);
      if status != SUCCESS || NewPath(buf).None? { return status, o; }
      var path := NewPath(buf).value;
      if buf[0] == 0 && !names.sameFold(path, o.path) {
        var target := Ask(Stat(o.share, path));
        if target.Ok? { return NAME_COLLISION, o; }
      }
      var moved := Ask(Rename(o.share, o.path, path));
      if moved.Fail? { return moved.status, o; }
      return SUCCESS, o.(path := path);
    }

    method SetTimes(o: Open, buf: bytes)
      requires Valid()
      modifies backend
      ensures Valid() && Touched(o, buf, old(backend.log)) == Outcome(SUCCESS, backend.log, o)
    {
      if |buf| < 32 || U64At(buf, 16) == 0 { return; }
      var status := PassGate(o);
      if status == SUCCESS {
        var a := Ask(Chtimes(o.share, o.path, U64At(buf, 16)));
      }
    }
  
    // ----- a whole connection -----

    method Handle(r: Request) returns (reply: Reply)
      requires Valid() && handleCtr + 1 < 0x1_0000_0000_0000_0000
      modifies this, backend
      ensures Valid() && Retires(old(handles), old(handleCtr), handles, handleCtr)
      ensures backend.log == old(backend.log) + reply.calls
      ensures r.CloseFile? ==> r.file !in handles
      ensures handleCtr == old(handleCtr) + (if reply.created.Some? then 1 else 0)
      ensures reply.created.Some? ==> reply.created.value == handleCtr
      ensures reply.created.Some? <==> r.Create? && reply.status == SUCCESS
      ensures NamesNothing(r, old(handles)) ==> Unserved(r, reply)
      ensures StepRight(backend.oracle, names, r, reply, old(handles), handles, old(backend.log))
    {
      var before := |backend.log|;
      if r.Create? {
        var status := HandleCreate(r.create);
        reply := Reply(status, if status == SUCCESS then Some(handleCtr) else None, backend.log[before..]);
      } else {
        var status := HandleOther(r);
        reply := Reply(status, None, backend.log[before..]);
      }
    }

    method HandleOther(r: Request) returns (status: u32)
      requires Valid() && !r.Create?
      modifies this`disk, this`pipes, this`handles, backend
      ensures Valid() && Retires(old(handles), handleCtr, handles, handleCtr) && old(backend.log) <= backend.log
      ensures r.CloseFile? ==> r.file !in handles
      ensures NamesNothing(r, old(handles)) ==> backend.log == old(backend.log) && status == UnservedStatus(r)
      ensures OtherRight(r, status, old(handles), old(backend.log))
    {
      if r.Malformed? {
        status := INVALID_PARAMETER;
      } else if r.TreeConnect? || r.TreeDisconnect? {
        HandleTree(r);
        status := SUCCESS;
      } else {
        status := HandleOnOpen(r);
      }
    }

    method HandleTree(r: Request)
      requires r.TreeConnect? || r.TreeDisconnect?
      modifies this`disk, this`pipes
      ensures r.TreeConnect? && r.share.Some? ==> disk == old(disk)[r.id := r.share.value] && pipes == old(pipes)
      ensures r.TreeConnect? && r.share.None? ==> disk == old(disk) && pipes == old(pipes) + {r.id}
      ensures r.TreeDisconnect? ==> disk == old(disk) - {r.tree} && pipes == old(pipes) - {r.tree}
    {
      match r
      case TreeConnect(id, share) =>
        if share.Some? { disk := disk[id := share.value]; } else { pipes := pipes + {id}; }
      case TreeDisconnect(tree) => disk, pipes := disk - {tree}, pipes - {tree};
    }

    /** StepRight, for all requests but CREATE. */
    ghost predicate OtherRight(r: Request, status: u32, t: Table, log: Log)
      reads this, backend
    {
      if r.CloseFile? then
        && handles == t - {r.file}
        && if r.file in t then RightlyEnded(backend.oracle, t[r.file], log, backend.log, status)
          else backend.log == log
      else
        && NoRemoves(log, backend.log)
        && if r.SetInfo? then SetRight(names, r.file, r.infoType, r.infoClass, r.buf, status, t, handles)
          else SameButListings(t, handles)
    }

    /** The requests that name an open. */
    method HandleOnOpen(r: Request) returns (status: u32)
      requires Valid() && (r.NeedsOpen() || r.Flush? || r.CloseFile?)
      modifies this`handles, backend
      ensures Valid() && Retires(old(handles), handleCtr, handles, handleCtr) && old(backend.log) <= backend.log
      ensures r.file !in old(handles) ==> backend.log == old(backend.log) && status == UnservedStatus(r)
      ensures r.CloseFile? ==> r.file !in handles
      ensures OtherRight(r, status, old(handles), old(backend.log))
    {
      if r.CloseFile? {
        status := HandleClose(r.file, r.postQuery);
      } else if r.SetInfo? {
        status := HandleSetInfo(r.file, r.inBounds, r.infoType, r.infoClass, r.buf);
      } else {
        status := HandleReading(r);
      }
    }

    /** Those of them that leave the table's opens as they are, but for a listing. */
    method HandleReading(r: Request) returns (status: u32)
      requires Valid() && (r.NeedsOpen() || r.Flush?) && !r.SetInfo?
      modifies this`handles, backend
      ensures Valid() && Retires(old(handles), handleCtr, handles, handleCtr)
      ensures NoRemoves(old(backend.log), backend.log) && SameButListings(old(handles), handles)
      ensures r.file !in old(handles) ==> backend.log == old(backend.log) && status == UnservedStatus(r)
    {
      var data;
      if r.Read? {
        status, data := HandleRead(r.file, r.offset, r.length);
      } else if r.Write? {
        status := HandleWrite(r.file, r.offset, r.dataOffset, r.length, r.body);
      } else if r.Flush? {
        status := HandleFlush(r.file);
      } else if r.QueryInfo? {
        status := HandleQueryInfo(r.file, r.infoType, r.infoClass, r.outLen);
      } else {
        status := HandleListing(r.file, r.query, r.aapl);
      }
    }
  }

  /** An answer; for a successful CREATE the number of its FileId; and the backend calls made for it. */
  datatype Reply = Reply(status: u32, created: Option<nat>, calls: Log)

  /** The request names a FileId that is not in the table. */
  predicate NamesNothing(r: Request, t: Table) {
    (r.NeedsOpen() || r.Flush? || r.CloseFile?) && r.file !in t
  }

  /** FLUSH and CLOSE of an unknown open succeed, and do nothing. */
  function UnservedStatus(r: Request): u32 { if r.NeedsOpen() then INVALID_PARAMETER else SUCCESS }

  predicate Unserved(r: Request, reply: Reply) { reply.calls == [] && reply.status == UnservedStatus(r) }

  ghost predicate Born(replies: seq<Reply>, i: nat, n: nat) {
    i < |replies| && replies[i].created == Some(n)
  }

  ghost predicate ClosedAt(requests: seq<Request>, j: nat, n: nat) {
    j < |requests| && requests[j].CloseFile? && requests[j].file == FileIdOf(n)
  }

  /** Before request k, a CREATE gave out FileId n and a later CLOSE named it. */
  ghost predicate Gone(requests: seq<Request>, replies: seq<Reply>, k: nat, n: nat) {
    exists i, j :: 0 <= i < j < k && Born(replies, i, n) && ClosedAt(requests, j, n)
  }

  /** No FileId is given out twice, and whatever names one that was closed does nothing on the backend: it is
      refused, but for FLUSH and another CLOSE, which succeed. */
  ghost predicate ClosedForGood(requests: seq<Request>, replies: seq<Reply>) {
    && (forall i, j, n :: Born(replies, i, n) && Born(replies, j, n) ==> i == j)
    && forall k, n ::
      (0 <= k < |replies| && k < |requests| && Gone(requests, replies, k, n) && requests[k].Names(FileIdOf(n)))
      ==> replies[k].calls == [] && replies[k].status == if requests[k].Flush? || requests[k].CloseFile? then 0 else 0xC000_000D
  }

  /** The calls made for all replies, in order. */
  function CallsOf(replies: seq<Reply>): Log {
    if replies == [] then [] else CallsOf(replies[..|replies| - 1]) + replies[|replies| - 1].calls
  }

  /** The table before each request and after the last, each step as its request has it. */
  ghost predicate Traced(oracle: Oracle, names: Names, requests: seq<Request>, replies: seq<Reply>, tables: seq<Table>) {
    && |replies| <= |requests| && |tables| == |replies| + 1 && tables[0] == map[]
    && forall k: nat :: k < |replies| ==> StepAt(oracle, names, requests, replies, tables, k)
  }

  ghost predicate StepAt(oracle: Oracle, names: Names, requests: seq<Request>, replies: seq<Reply>, tables: seq<Table>,
    k: nat)
    requires k < |replies| <= |requests| && k + 1 < |tables|
  {
    StepRight(oracle, names, requests[k], replies[k], tables[k], tables[k + 1], CallsOf(replies[..k]))
  }

  lemma MoreTraced(oracle: Oracle, names: Names, requests: seq<Request>, replies: seq<Reply>, tables: seq<Table>,
      reply: Reply, t: Table)
    requires Traced(oracle, names, requests, replies, tables) && |replies| < |requests|
    requires StepRight(oracle, names, requests[|replies|], reply, tables[|replies|], t, CallsOf(replies))
    ensures Traced(oracle, names, requests, replies + [reply], tables + [t])
    ensures (tables + [t])[|replies + [reply]|] == t
  {
    var more, longer, n := replies + [reply], tables + [t], |replies|;
    forall k: nat | k <= n ensures StepAt(oracle, names, requests, more, longer, k) {
      assert more[..k] == replies[..k];
      if k < n { assert StepAt(oracle, names, requests, replies, tables, k); } else { assert replies[..k] == replies; }
    }
  }

  /** What may reach a read-only share, call by call. */
  lemma SparedSharesAreOnlyRead(log: Log)
    requires SparesReadOnly(log)
    ensures forall i :: 0 <= i < |log| && log[i].share.readOnly ==>
      || log[i].Stat? || log[i].HandleStat? || log[i].Statfs? || log[i].ReadDir? || log[i].ReadAt? || log[i].Sync?
      || log[i].Close? || log[i] == OpenFile(log[i].share, log[i].path, Flags(false, false, false, false, false))
  {
  }

  /** A connection from its start to its end. */
  method Connection(oracle: Oracle, names: Names, requests: seq<Request>)
      returns (replies: seq<Reply>, log: Log, ghost tables: seq<Table>)
    requires |requests| < 0xFFFF_FFFF_FFFF_FFFF
    ensures |replies| == |requests|
    ensures SparesReadOnly(log)
    ensures forall h :: Closes(log, h) == if Opened(oracle, log, h) then 1 else 0
    ensures ClosedForGood(requests, replies)
    ensures CallsOf(replies) <= log && forall i :: |CallsOf(replies)| <= i < |log| ==> log[i].Close?
    ensures Traced(oracle, names, requests, replies, tables)
  {
    var backend := new Backend(oracle);
    var c := new Conn(backend, names);
    replies, tables := [], [c.handles];
    while |replies| < |requests|
      invariant |replies| <= |requests| && c.Valid() && c.backend == backend && backend.oracle == oracle && c.names == names
      invariant c.handleCtr <= |replies|
      invariant fresh(c) && fresh(backend) && backend.log == CallsOf(replies)
      invariant Followed(requests, replies, c.handles, c.handleCtr)
      invariant ClosedForGood(requests, replies)
      invariant Traced(oracle, names, requests, replies, tables) && tables[|replies|] == c.handles
    {
      ghost var t, counter := c.handles, c.handleCtr;
      var reply := c.Handle(requests[|replies|]);
      OneMoreReply(requests, replies, t, counter, reply, c.handles, c.handleCtr);
      MoreTraced(oracle, names, requests, replies, tables, reply, c.handles);
      CallsSnoc(replies, reply);
      replies := replies + [reply];
      tables := tables + [c.handles];
    }
    c.Teardown();
    log := backend.log;
  }

  lemma CallsSnoc(replies: seq<Reply>, reply: Reply)
    ensures CallsOf(replies + [reply]) == CallsOf(replies) + reply.calls
  {
    assert (replies + [reply])[..|replies|] == replies;
  }

  // ----- deletion over a whole connection -----

  /** Call i was made for request k, a CLOSE of an open marked for deletion, and removes that open's file. */
  ghost predicate RemovedByClose(requests: seq<Request>, replies: seq<Reply>, tables: seq<Table>, i: nat, k: nat)
    requires |replies| <= |requests| && |tables| == |replies| + 1
  {
    && k < |replies| && requests[k].CloseFile? && requests[k].file in tables[k]
    && |CallsOf(replies[..k])| <= i < |CallsOf(replies[..k])| + |replies[k].calls|
    && var o := tables[k][requests[k].file];
      o.deleteOnClose && replies[k].calls[i - |CallsOf(replies[..k])|] == Remove(o.share, o.path)
  }

  /** Whatever is removed is removed by the CLOSE of an open marked for deletion. */
  lemma {:induction false} OnlyMarkedFilesAreRemoved(oracle: Oracle, names: Names, requests: seq<Request>,
      replies: seq<Reply>, tables: seq<Table>, i: nat) returns (k: nat)
    requires Traced(oracle, names, requests, replies, tables)
    requires i < |CallsOf(replies)| && CallsOf(replies)[i].Remove?
    ensures RemovedByClose(requests, replies, tables, i, k)
    decreases |replies|
  {
    var n := |replies| - 1;
    var before := CallsOf(replies[..n]);
    assert StepAt(oracle, names, requests, replies, tables, n);
    if i >= |before| {
      k := n;
      assert (before + replies[n].calls)[i] == replies[n].calls[i - |before|];
    } else {
      EarlierTraced(oracle, names, requests, replies, tables);
      k := OnlyMarkedFilesAreRemoved(oracle, names, requests, replies[..n], tables[..n + 1], i);
      assert replies[..n][..k] == replies[..k];
    }
  }

  lemma EarlierTraced(oracle: Oracle, names: Names, requests: seq<Request>, replies: seq<Reply>, tables: seq<Table>)
    requires Traced(oracle, names, requests, replies, tables) && replies != []
    ensures var n := |replies| - 1; Traced(oracle, names, requests, replies[..n], tables[..n + 1])
  {
    var n := |replies| - 1;
    var fewer, earlier := replies[..n], tables[..n + 1];
    forall k: nat | k < n ensures StepAt(oracle, names, requests, fewer, earlier, k) {
      assert StepAt(oracle, names, requests, replies, tables, k);
      assert fewer[..k] == replies[..k];
    }
  }

  /** Nothing between requests i and j touches the open of a FileId but to read or write it. */
  ghost predicate LeftAlone(requests: seq<Request>, id: FileId, i: nat, j: nat) {
    forall k :: i < k < j && k < |requests| && (requests[k].SetInfo? || requests[k].CloseFile?) ==> requests[k].file != id
  }

  lemma {:induction false} OpenStaysMarked(oracle: Oracle, names: Names, requests: seq<Request>, replies: seq<Reply>,
      tables: seq<Table>, i: nat, j: nat, id: FileId)
    requires Traced(oracle, names, requests, replies, tables) && i < j <= |replies|
    requires requests[i].Create? && replies[i].created.Some? && id == FileIdOf(replies[i].created.value)
    requires LeftAlone(requests, id, i, j)
    ensures id in tables[j] && tables[j][id].path == requests[i].create.path
    ensures tables[j][id].deleteOnClose <==> requests[i].create.options / 0x1000 % 2 == 1
    decreases j
  {
    assert StepAt(oracle, names, requests, replies, tables, j - 1);
    if i + 1 < j { OpenStaysMarked(oracle, names, requests, replies, tables, i, j - 1, id); }
  }

  /** From request to removal: a CREATE that asks for deletion on close, and the next CLOSE of what it opened. The
      file is removed among that CLOSE's calls exactly when its handle was closed without an error, and if it was
      not asked for, it is not removed. */
  lemma DeletedWhenAskedFor(oracle: Oracle, names: Names, requests: seq<Request>, replies: seq<Reply>,
      tables: seq<Table>, i: nat, j: nat)
    requires Traced(oracle, names, requests, replies, tables) && i < j < |replies|
    requires requests[i].Create? && replies[i].created.Some?
    requires requests[j].CloseFile? && requests[j].file == FileIdOf(replies[i].created.value)
    requires LeftAlone(requests, requests[j].file, i, j)
    ensures requests[j].file in tables[j]
    ensures var o, before := tables[j][requests[j].file], CallsOf(replies[..j]);
      Remove(o.share, requests[i].create.path) in replies[j].calls
      <==> requests[i].create.options / 0x1000 % 2 == 1 && ClosesOk(oracle, o, before, before + replies[j].calls)
  {
    var id, before, calls := requests[j].file, CallsOf(replies[..j]), replies[j].calls;
    OpenStaysMarked(oracle, names, requests, replies, tables, i, j, id);
    assert StepAt(oracle, names, requests, replies, tables, j);
    var o := tables[j][id];
    RemovalAmongCalls(oracle, o, before, calls, replies[j].status);
  }

  lemma RemovalAmongCalls(oracle: Oracle, o: Open, before: Log, calls: Log, status: u32)
    requires RightlyEnded(oracle, o, before, before + calls, status)
    ensures Remove(o.share, o.path) in calls <==> o.deleteOnClose && ClosesOk(oracle, o, before, before + calls)
  {
    var log' := before + calls;
    if Remove(o.share, o.path) in calls {
      var k :| 0 <= k < |calls| && calls[k] == Remove(o.share, o.path);
      assert log'[|before| + k].Remove?;
    }
    if o.deleteOnClose && ClosesOk(oracle, o, before, log') {
      var i :| |before| <= i < |log'| && log'[i].Remove?;
      assert calls[i - |before|] == Remove(o.share, o.path);
    }
  }

  /** The numbers given out so far are at most the counter, and those closed are not in the table. */
  ghost predicate Followed(requests: seq<Request>, replies: seq<Reply>, t: Table, counter: nat) {
    && (forall i: nat, n: nat :: Born(replies, i, n) ==> n <= counter)
    && forall n: nat :: Gone(requests, replies, |replies|, n) ==> FileIdOf(n) !in t
  }

  lemma OneMoreReply(requests: seq<Request>, replies: seq<Reply>, t: Table, counter: nat, reply: Reply, t': Table,
      counter': nat)
    requires |replies| < |requests| && Followed(requests, replies, t, counter) && ClosedForGood(requests, replies)
    requires Retires(t, counter, t', counter')
    requires reply.created.Some? ==> reply.created.value == counter' == counter + 1
    requires var r := requests[|replies|];
      (r.CloseFile? ==> r.file !in t') && (NamesNothing(r, t) ==> Unserved(r, reply))
    ensures Followed(requests, replies + [reply], t', counter') && ClosedForGood(requests, replies + [reply])
  {
    var more, k := replies + [reply], |replies|;
    forall i, n | Born(more, i, n) ensures if i == k then n == counter + 1 else Born(replies, i, n) {}
    forall j, n | 0 <= j <= k && Gone(requests, more, j, n) ensures Gone(requests, replies, j, n) {
      var i, j' :| 0 <= i < j' < j && Born(more, i, n) && ClosedAt(requests, j', n);
      assert Born(replies, i, n);
    }
    forall n | Gone(requests, more, k + 1, n) ensures FileIdOf(n) !in t' {
      var i, j :| 0 <= i < j < k + 1 && Born(more, i, n) && ClosedAt(requests, j, n);
      assert Born(replies, i, n);
      if j < k { assert Gone(requests, replies, k, n); }
    }
  }
}
