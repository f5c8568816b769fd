/** Directory entries on the wire (dirInfoLayout and buildDirInfoBuffer in internal/smb/info.go): a chain
    of 8-aligned records ([MS-FSCC] section 2.4), written by the server and read by an independent client.
  */
module DirBuffer {
  import opened Bytes
  import opened Utf16

  /** What ReadDir says of one entry; the time is in file-time units. */
  datatype Entry = Entry(name: string, isDir: bool, readOnly: bool, size: u64, time: u64)

  /** The directory being listed, as far as its entries' records depend on it. */
  datatype Dir = Dir(readOnly: bool, fileId: string -> u64, aapl: bool)

  const NAMES: byte := 0x0C
  const ID_BOTH: byte := 0x25
  const ID_FULL: byte := 0x26

  /** dirInfoLayout: the size of a record's fixed part, behind which the name stands; unknown classes are
      served as the first. */
  function Fixed(infoClass: byte): (n: nat)
    ensures 12 <= n <= 104
  {
    if infoClass == 0x02 then 68 else if infoClass == 0x03 then 94 else if infoClass == NAMES then 12
    else if infoClass == ID_BOTH then 104 else if infoClass == ID_FULL then 80 else 64
  }

  /** fileInfoAttrs */
  function Attributes(e: Entry): u32 {
    if e.isDir then 0x10 else if e.readOnly then 0x1 else 0x80
  }

  /** The record's size. */
  function Padded(infoClass: byte, e: Entry): (n: nat)
    ensures n % 8 == 0 && Fixed(infoClass) + |NameBytes(e.name)| <= n < Fixed(infoClass) + |NameBytes(e.name)| + 8
  {
    RoundUp8(Fixed(infoClass) + |NameBytes(e.name)|)
  }

  // ----- a record, part by part -----

  /** appleReadDirAttr: bytes 64 to 96 of a FileIdBothDirectoryInformation entry. */
  function Apple(readOnly: bool, isDir: bool): (b: bytes)
    ensures |b| == 32
  {
    var access := if readOnly then 0x0012_00A9 else 0x001F_01FF;
    var mode := if isDir then (if readOnly then 0x16D else 0x1ED) else if readOnly then 0x124 else 0x1A4;
    Le(access, 4) + [24, 0] + Zeros(24) + Le(mode, 2)
  }

  /** What a class has between byte 64 and the name. */
  function Tail(infoClass: byte, dir: Dir, e: Entry): (b: bytes)
    requires infoClass != NAMES
    ensures |b| == Fixed(infoClass) - 64
  {
    var id := Le(dir.fileId(e.name), 8);
    if infoClass == ID_FULL then Zeros(8) + id
    else if infoClass == ID_BOTH then
      (if dir.aapl then Apple(dir.readOnly || (e.readOnly && !e.isDir), e.isDir) else Zeros(32)) + id
    else Zeros(Fixed(infoClass) - 64)
  }

  /** Bytes 8 to 64. */
  function Facts(e: Entry): (b: bytes)
    ensures |b| == 56
  {
    var time, size := Le(e.time, 8), Le(e.size, 8);
    time + time + time + time + size + size + Le(Attributes(e), 4) + Le(Wrap32(|NameBytes(e.name)|), 4)
  }

  /** Everything behind the offset of the next record. */
  function Body(infoClass: byte, dir: Dir, e: Entry): (b: bytes)
    ensures |b| == Padded(infoClass, e) - 4
  {
    var name := NameBytes(e.name);
    var pad := Zeros(Padded(infoClass, e) - Fixed(infoClass) - |name|);
    if infoClass == NAMES then Zeros(4) + Le(Wrap32(|name|), 4) + name + pad
    else Zeros(4) + Facts(e) + Tail(infoClass, dir, e) + name + pad
  }

  function Record(infoClass: byte, dir: Dir, e: Entry, next: nat): (b: bytes)
    ensures |b| == Padded(infoClass, e)
  {
    Le(next, 4) + Body(infoClass, dir, e)
  }

  // ----- the layouts, added up -----

  /** Where the name stands, from the fields [MS-FSCC] lists before it: the offset of the next record and an index
      (4 each), four times and two sizes (8 each), attributes and name length (4 each); then the size of extended
      attributes (4), a short name with its length (1, 1, 24), and the FileId (8) behind 2 or 4 bytes of padding. */
  lemma LayoutsAddUp(infoClass: byte)
    ensures Fixed(0x01) == 4 + 4 + 4 * 8 + 2 * 8 + 4 + 4
    ensures Fixed(0x02) == Fixed(0x01) + 4
    ensures Fixed(0x03) == Fixed(0x02) + 1 + 1 + 24
    ensures Fixed(0x0C) == 4 + 4 + 4
    ensures Fixed(0x25) == Fixed(0x03) + 2 + 8
    ensures Fixed(0x26) == Fixed(0x02) + 4 + 8
    ensures infoClass !in [0x01, 0x02, 0x03, 0x0C, 0x25, 0x26] ==> Fixed(infoClass) == 64
  {
  }

  /** One of three attributes: a directory (bit 4), a read-only file (bit 0), any other file (bit 7). */
  lemma AttributesMean(e: Entry)
    ensures Attributes(e) == if e.isDir then 16 else if e.readOnly then 1 else 128
  {
  }

  /** macOS's 32 bytes: the access mask at 0, the short name's length 24 at 4, zeros for resource fork and Finder
      info, and the UNIX mode at 30: 0755 or 0555 for a folder, 0644 or 0444 for a file. */
  lemma AppleMeans(readOnly: bool, isDir: bool)
    ensures var b := Apple(readOnly, isDir);
      && b[4] == 24 && b[5] == 0 && (forall i :: 6 <= i < 30 ==> b[i] == 0)
      && U16At(b, 30) == if isDir then (if readOnly then 5 * 64 + 5 * 8 + 5 else 7 * 64 + 5 * 8 + 5)
        else if readOnly then 4 * 64 + 4 * 8 + 4 else 6 * 64 + 4 * 8 + 4
  {
    var mode: u16 := if isDir then (if readOnly then 0x16D else 0x1ED) else if readOnly then 0x124 else 0x1A4;
    assert Field(Apple(readOnly, isDir), 30, 2) == Le(mode, 2);
    Le16(mode);
  }

  // ----- the chain -----

  /** Records that each point to a next one, whether there is one or not. */
  function Linked(infoClass: byte, dir: Dir, es: seq<Entry>): bytes {
    if es == [] then [] else Record(infoClass, dir, es[0], Padded(infoClass, es[0])) + Linked(infoClass, dir, es[1..])
  }

  /** What is sent: the last record points nowhere. */
  function Chain(infoClass: byte, dir: Dir, es: seq<Entry>): bytes {
    if es == [] then []
    else if |es| == 1 then Record(infoClass, dir, es[0], 0)
    else Record(infoClass, dir, es[0], Padded(infoClass, es[0])) + Chain(infoClass, dir, es[1..])
  }

  function Size(infoClass: byte, es: seq<Entry>): nat {
    if es == [] then 0 else Padded(infoClass, es[0]) + Size(infoClass, es[1..])
  }

  lemma {:induction false} Sizes(infoClass: byte, dir: Dir, es: seq<Entry>)
    ensures |Linked(infoClass, dir, es)| == Size(infoClass, es) == |Chain(infoClass, dir, es)|
  {
    if es != [] { Sizes(infoClass, dir, es[1..]); }
  }

  lemma {:induction false} Snoc(infoClass: byte, dir: Dir, es: seq<Entry>, e: Entry)
    ensures Linked(infoClass, dir, es + [e]) == Linked(infoClass, dir, es) + Record(infoClass, dir, e, Padded(infoClass, e))
    ensures Chain(infoClass, dir, es + [e]) == Linked(infoClass, dir, es) + Record(infoClass, dir, e, 0)
  {
    if es == [] {
      assert es + [e] == [e];
      assert [e][1..] == [];
      assert Linked(infoClass, dir, [e]) == Record(infoClass, dir, e, Padded(infoClass, e)) + [];
    } else {
      assert (es + [e])[1..] == es[1..] + [e];
      Snoc(infoClass, dir, es[1..], e);
      var first := Record(infoClass, dir, es[0], Padded(infoClass, es[0]));
      Assoc(first, Linked(infoClass, dir, es[1..]), Record(infoClass, dir, e, Padded(infoClass, e)));
      Assoc(first, Linked(infoClass, dir, es[1..]), Record(infoClass, dir, e, 0));
    }
  }

  /** Clearing the last record's offset ends the chain. */
  lemma ClearLast(before: bytes, infoClass: byte, dir: Dir, e: Entry)
    ensures Put(before + Record(infoClass, dir, e, Padded(infoClass, e)), |before|, Le(0, 4))
      == before + Record(infoClass, dir, e, 0)
  {
  }

  /** One more entry of a listing: the links so far grow by a record, and clearing that record's offset
      gives the chain. */
  lemma Extend(infoClass: byte, dir: Dir, es: seq<Entry>, n: nat)
    requires n < |es|
    ensures Linked(infoClass, dir, es[..n + 1])
      == Linked(infoClass, dir, es[..n]) + Record(infoClass, dir, es[n], Padded(infoClass, es[n]))
    ensures var buf := Linked(infoClass, dir, es[..n + 1]); var start := |Linked(infoClass, dir, es[..n])|;
      start + 4 <= |buf| && Put(buf, start, Le(0, 4)) == Chain(infoClass, dir, es[..n + 1])
  {
    assert es[..n + 1] == es[..n] + [es[n]];
    Snoc(infoClass, dir, es[..n], es[n]);
    ClearLast(Linked(infoClass, dir, es[..n]), infoClass, dir, es[n]);
  }

  // ----- building it in place -----

  /** Bytes 8 to 64 of a record. */
  method FillFacts(p: bytes, n: nat, b: bytes, e: Entry) returns (b': bytes)
    requires |p| == 8 && n >= 56 && b == Buffer(p, n)
    ensures b' == Buffer(p + Facts(e), n - 56)
  {
    var time, size := Le(e.time, 8), Le(e.size, 8);
    var attributes, length := Le(Attributes(e), 4), Le(Wrap32(|NameBytes(e.name)|), 4);
    b' := Put(b, 8, time);
    Fill(p, n, time);
    b' := Put(b', 16, time);
    Fill(p + time, n - 8, time);
    b' := Put(b', 24, time);
    Fill(p + time + time, n - 16, time);
    b' := Put(b', 32, time);
    Fill(p + time + time + time, n - 24, time);
    b' := FillSizes(p + time + time + time + time, n - 32, b', size, attributes, length);
    FactsInOrder(p, time, size, attributes, length);
  }

  method FillSizes(p: bytes, n: nat, b: bytes, size: bytes, attributes: bytes, length: bytes) returns (b': bytes)
    requires |p| == 40 && n >= 24 && |size| == 8 && |attributes| == |length| == 4 && b == Buffer(p, n)
    ensures b' == Buffer(p + size + size + attributes + length, n - 24)
  {
    b' := Put(b, 40, size);
    Fill(p, n, size);
    b' := Put(b', 48, size);
    Fill(p + size, n - 8, size);
    b' := Put(b', 56, attributes);
    Fill(p + size + size, n - 16, attributes);
    b' := Put(b', 60, length);
    Fill(p + size + size + attributes, n - 20, length);
  }

  lemma FactsInOrder(p: bytes, time: bytes, size: bytes, attributes: bytes, length: bytes)
    ensures p + time + time + time + time + size + size + attributes + length
      == p + (time + time + time + time + size + size + attributes + length)
  {
  }

  /** What a class has between byte 64 and the name, and then the name. */
  method FillTail(p: bytes, n: nat, b: bytes, infoClass: byte, dir: Dir, e: Entry) returns (b': bytes)
    requires infoClass != NAMES && |p| == 64 && n >= Fixed(infoClass) - 64 && b == Buffer(p, n)
    ensures b' == Buffer(p + Tail(infoClass, dir, e), n - (Fixed(infoClass) - 64))
  {
    var id := Le(dir.fileId(e.name), 8);
    b' := b;
    if infoClass == ID_FULL {
      b' := Put(b, 72, id);
      Skip(p, n, 8);
      Fill(p + Zeros(8), n - 8, id);
      Assoc(p, Zeros(8), id);
    } else if infoClass == ID_BOTH {
      var apple := if dir.aapl then Apple(dir.readOnly || (e.readOnly && !e.isDir), e.isDir) else Zeros(32);
      if dir.aapl { b' := Put(b, 64, apple); }
      Skip(p, n, 32);
      Fill(p, n, apple);
      b' := Put(b', 96, id);
      Fill(p + apple, n - 32, id);
      Assoc(p, apple, id);
    } else {
      Skip(p, n, Fixed(infoClass) - 64);
    }
  }

  lemma RecordInOrder(h: bytes, f: bytes, t: bytes, name: bytes, n: nat)
    ensures Buffer(h + Zeros(4) + f + t + name, n) == h + (Zeros(4) + f + t + name + Zeros(n))
  {
  }

  /** One entry: a zeroed buffer of the padded size, its fields and the name put at their offsets. */
  method EncodeEntry(infoClass: byte, dir: Dir, e: Entry) returns (b: bytes)
    ensures b == Record(infoClass, dir, e, Padded(infoClass, e))
  {
    var wire := StringToUTF16le(e.name);
    var padded := Padded(infoClass, e);
    var h := Le(padded, 4);
    b := Put(Zeros(padded), 0, h);
    assert b == Buffer(h, padded - 4);
    Skip(h, padded - 4, 4);
    if infoClass == NAMES {
      b := FillNameOnly(h + Zeros(4), padded - 8, b, wire[..]);
      NameInOrder(h, Le(Wrap32(|wire[..]|), 4), wire[..], padded - 12 - |wire[..]|);
    } else {
      b := FillEntry(h + Zeros(4), padded - 8, b, infoClass, dir, e, wire[..]);
      RecordInOrder(h, Facts(e), Tail(infoClass, dir, e), wire[..], padded - Fixed(infoClass) - |wire[..]|);
    }
  }

  method FillNameOnly(p: bytes, n: nat, b: bytes, name: bytes) returns (b': bytes)
    requires |p| == 8 && n >= 4 + |name| && b == Buffer(p, n)
    ensures b' == Buffer(p + Le(Wrap32(|name|), 4) + name, n - 4 - |name|)
  {
    var length := Le(Wrap32(|name|), 4);
    b' := Put(b, 8, length);
    Fill(p, n, length);
    b' := Put(b', 12, name);
    Fill(p + length, n - 4, name);
  }

  method FillEntry(p: bytes, n: nat, b: bytes, infoClass: byte, dir: Dir, e: Entry, name: bytes) returns (b': bytes)
    requires infoClass != NAMES && |p| == 8 && n >= Fixed(infoClass) - 8 + |name| && b == Buffer(p, n)
    ensures b' == Buffer(p + Facts(e) + Tail(infoClass, dir, e) + name, n - (Fixed(infoClass) - 8) - |name|)
  {
    b' := FillFacts(p, n, b, e);
    b' := FillTail(p + Facts(e), n - 56, b', infoClass, dir, e);
    b' := Put(b', Fixed(infoClass), name);
    Fill(p + Facts(e) + Tail(infoClass, dir, e), n - (Fixed(infoClass) - 8), name);
  }

  lemma NameInOrder(h: bytes, length: bytes, name: bytes, n: nat)
    ensures Buffer(h + Zeros(4) + length + name, n) == h + (Zeros(4) + length + name + Zeros(n))
  {
  }

  /** The first count entries are linked up, within the bound unless it is a single one. */
  ghost predicate Packed(infoClass: byte, dir: Dir, es: seq<Entry>, maxLen: nat, count: nat, buf: bytes) {
    && count <= |es| && buf == Linked(infoClass, dir, es[..count])
    && (count > 0 ==> |buf| <= Max(maxLen, Padded(infoClass, es[0])))
  }

  /** buildDirInfoBuffer: as many entries as fit, but at least one. */
  method BuildDirInfoBuffer(es: seq<Entry>, maxLen: nat, infoClass: byte, dir: Dir) returns (buf: bytes, count: nat)
    ensures count <= |es| && (es != [] ==> count >= 1)
    ensures buf == Chain(infoClass, dir, es[..count])
    ensures count > 0 ==> |buf| <= Max(maxLen, Padded(infoClass, es[0]))
    ensures count < |es| ==> |buf| + Padded(infoClass, es[count]) > maxLen
  {
    buf, count := [], 0;
    var lastStart := 0;
    ghost var links := buf;
    while count < |es| && (count == 0 || |buf| + Padded(infoClass, es[count]) <= maxLen)
      invariant Packed(infoClass, dir, es, maxLen, count, buf)
      invariant count > 0 ==> Packed(infoClass, dir, es, maxLen, count - 1, links) && lastStart == |links|
    {
      links, lastStart := buf, |buf|;
      buf := AppendEntry(buf, es, maxLen, count, infoClass, dir);
      count := count + 1;
    }
    if count > 0 {
      Extend(infoClass, dir, es, count - 1);
      buf := Put(buf, lastStart, Le(0, 4));
    }
  }

  method AppendEntry(buf: bytes, es: seq<Entry>, maxLen: nat, count: nat, infoClass: byte, dir: Dir)
      returns (longer: bytes)
    requires Packed(infoClass, dir, es, maxLen, count, buf) && count < |es|
    requires count == 0 || |buf| + Padded(infoClass, es[count]) <= maxLen
    ensures Packed(infoClass, dir, es, maxLen, count + 1, longer)
  {
    var e := EncodeEntry(infoClass, dir, es[count]);
    Extend(infoClass, dir, es, count);
    longer := buf + e;
  }

  lemma {:induction false} SizeSnoc(infoClass: byte, es: seq<Entry>, e: Entry)
    ensures Size(infoClass, es + [e]) == Size(infoClass, es) + Padded(infoClass, e)
  {
    if es == [] {
      assert es + [e] == [e];
      assert [e][1..] == [];
    } else {
      assert (es + [e])[1..] == es[1..] + [e];
      SizeSnoc(infoClass, es[1..], e);
    }
  }

  lemma {:induction false} SizeGrows(infoClass: byte, es: seq<Entry>, m: nat, n: nat)
    requires m <= n <= |es|
    ensures Size(infoClass, es[..m]) <= Size(infoClass, es[..n])
    decreases n
  {
    if m < n {
      SizeGrows(infoClass, es, m, n - 1);
      SizeSnoc(infoClass, es[..n - 1], es[n - 1]);
      assert es[..n] == es[..n - 1] + [es[n - 1]];
    }
  }

  /** The count is the greatest that fits: no longer prefix of the entries stays within the bound. */
  lemma CountIsMaximal(infoClass: byte, es: seq<Entry>, maxLen: nat, count: nat, more: nat)
    requires count < more <= |es|
    requires Size(infoClass, es[..count]) + Padded(infoClass, es[count]) > maxLen
    ensures Size(infoClass, es[..more]) > maxLen
  {
    SizeSnoc(infoClass, es[..count], es[count]);
    assert es[..count + 1] == es[..count] + [es[count]];
    SizeGrows(infoClass, es, count + 1, more);
  }

  // ----- the client's side -----

  /** What a client reads in a record: where it stands, the name, and the fields its class has. */
  datatype Details = NameOnly | Full(time: u64, size: u64, attributes: u32, id: Option<u64>, access: Option<u32>)

  datatype Seen = Seen(at: nat, name: bytes, details: Details)

  /** Where a class has the length of the name. */
  function NameLengthAt(infoClass: byte): (n: nat)
    ensures n + 4 <= Fixed(infoClass)
  {
    if infoClass == NAMES then 8 else 60
  }

  function ReadDetails(infoClass: byte, b: bytes): Details
    requires |b| >= Fixed(infoClass)
  {
    if infoClass == NAMES then NameOnly
    else Full(U64At(b, 24), U64At(b, 40), U32At(b, 56),
      if infoClass == ID_FULL then Some(U64At(b, 72)) else if infoClass == ID_BOTH then Some(U64At(b, 96)) else None,
      if infoClass == ID_BOTH then Some(U32At(b, 64)) else None)
  }

  function ReadRecord(infoClass: byte, b: bytes, at: nat): Option<Seen> {
    if |b| < Fixed(infoClass) then None
    else
      var n := U32At(b, NameLengthAt(infoClass));
      if |b[Fixed(infoClass)..]| < n then None
      else Some(Seen(at, b[Fixed(infoClass)..][..n], ReadDetails(infoClass, b)))
  }

  /** The walk along NextEntryOffset; `at` is how far into the buffer it has come. */
  function Walk(infoClass: byte, b: bytes, at: nat): Option<seq<Seen>>
    decreases |b|
  {
    var seen := ReadRecord(infoClass, b, at);
    if seen.None? then None
    else
      var next := U32At(b, 0);
      if next == 0 then Some([seen.value])
      else if next > |b| then None
      else
        var rest := Walk(infoClass, b[next..], at + next);
        if rest.None? then None else Some([seen.value] + rest.value)
  }

  // ----- what it should read -----

  function DetailsOf(infoClass: byte, dir: Dir, e: Entry): Details {
    if infoClass == NAMES then NameOnly
    else Full(e.time, e.size, if e.isDir then 16 else if e.readOnly then 1 else 128,
      if infoClass == ID_FULL || infoClass == ID_BOTH then Some(dir.fileId(e.name)) else None,
      if infoClass != ID_BOTH then None
      else if !dir.aapl then Some(0)
      else if dir.readOnly || (e.readOnly && !e.isDir) then Some(0x0012_00A9)
      else Some(0x001F_01FF))
  }

  function SeenOf(infoClass: byte, dir: Dir, es: seq<Entry>, at: nat): seq<Seen> {
    if es == [] then []
    else
      [SeenAt(infoClass, dir, es[0], at)]
      + SeenOf(infoClass, dir, es[1..], at + Padded(infoClass, es[0]))
  }

  /** Names short enough for their records' 32-bit offsets. */
  predicate Short(es: seq<Entry>) {
    forall i :: 0 <= i < |es| ==> |NameBytes(es[i].name)| <= 0xFFFF_FF00
  }

  lemma FieldInside(b: bytes, off: nat, n: nat, off': nat, n': nat)
    requires off + n <= |b| && off' + n' <= n
    ensures Field(Field(b, off, n), off', n') == Field(b, off + off', n')
  {
    forall k | 0 <= k < n'
      ensures Field(Field(b, off, n), off', n')[k] == b[off + off' + k] == Field(b, off + off', n')[k]
    {
      assert Field(b, off, n)[off' + k] == b[off + off' + k];
    }
  }

  /** What a client takes from bytes 8 to 64, and from those up to the name. */
  ghost predicate FactsSay(f: bytes, e: Entry) {
    && |f| == 56
    && U64At(f, 16) == e.time && U64At(f, 32) == e.size && U32At(f, 48) == Attributes(e)
    && U32At(f, 52) == Wrap32(|NameBytes(e.name)|)
  }

  ghost predicate TailSays(infoClass: byte, dir: Dir, t: bytes, e: Entry) {
    && |t| == Fixed(infoClass) - 64
    && (infoClass == ID_FULL ==> U64At(t, 8) == dir.fileId(e.name))
    && (infoClass == ID_BOTH ==> U64At(t, 32) == dir.fileId(e.name) && Some(U32At(t, 0)) == DetailsOf(infoClass, dir, e).access)
  }

  lemma FactsSayThem(e: Entry)
    ensures FactsSay(Facts(e), e)
  {
    var time, size := Le(e.time, 8), Le(e.size, 8);
    Le64(e.time);
    Le64(e.size);
    Le32(Attributes(e));
    Le32(Wrap32(|NameBytes(e.name)|));
    EightParts(time, size, Le(Attributes(e), 4), Le(Wrap32(|NameBytes(e.name)|), 4));
  }

  lemma EightParts(time: bytes, size: bytes, attributes: bytes, length: bytes)
    requires |time| == |size| == 8 && |attributes| == |length| == 4
    ensures var f := time + time + time + time + size + size + attributes + length;
      && Field(f, 16, 8) == time && Field(f, 32, 8) == size && Field(f, 48, 4) == attributes && Field(f, 52, 4) == length
  {
  }

  lemma TailSaysIt(infoClass: byte, dir: Dir, e: Entry)
    requires infoClass != NAMES
    ensures TailSays(infoClass, dir, Tail(infoClass, dir, e), e)
  {
    var id := Le(dir.fileId(e.name), 8);
    Le64(dir.fileId(e.name));
    if infoClass == ID_FULL {
      TwoParts(Zeros(8), id);
    } else if infoClass == ID_BOTH {
      if dir.aapl {
        var readOnly := dir.readOnly || (e.readOnly && !e.isDir);
        TwoParts(Apple(readOnly, e.isDir), id);
        AccessIsRead(readOnly, e.isDir, id);
      } else {
        TwoParts(Zeros(32), id);
        NoAccess(id);
      }
    }
  }

  lemma NoAccess(id: bytes)
    ensures U32At(Zeros(32) + id, 0) == 0
  {
    assert Field(Zeros(32) + id, 0, 4) == Zeros(4);
    ZeroBytes(4);
  }

  lemma {:induction false} ZeroBytes(n: nat)
    ensures Num(Zeros(n)) == 0
  {
    if n > 0 {
      assert Zeros(n)[1..] == Zeros(n - 1);
      ZeroBytes(n - 1);
    }
  }

  lemma TwoParts(a: bytes, b: bytes)
    ensures Field(a + b, |a|, |b|) == b
  {
  }

  lemma AccessIsRead(readOnly: bool, isDir: bool, id: bytes)
    ensures U32At(Apple(readOnly, isDir) + id, 0) == if readOnly then 0x0012_00A9 else 0x001F_01FF
  {
    var access: u32 := if readOnly then 0x0012_00A9 else 0x001F_01FF;
    assert Field(Apple(readOnly, isDir) + id, 0, 4) == Le(access, 4);
    Le32(access);
  }

  lemma ParallelParts(a: bytes, z: bytes, f: bytes, t: bytes, name: bytes, pad: bytes, rest: bytes)
    requires |a| == 4 && |z| == 4 && |f| == 56
    ensures var b := a + (z + f + t + name + pad) + rest;
      && Field(b, 0, 4) == a && Field(b, 8, 56) == f && Field(b, 64, |t|) == t
      && b[64 + |t|..][..|name|] == name
  {
  }

  lemma NameParts(a: bytes, z: bytes, n: bytes, name: bytes, pad: bytes, rest: bytes)
    requires |a| == 4 && |z| == 4 && |n| == 4
    ensures var b := a + (z + n + name + pad) + rest;
      Field(b, 0, 4) == a && Field(b, 8, 4) == n && b[12..][..|name|] == name
  {
  }

  lemma DetailsAreRead(infoClass: byte, dir: Dir, e: Entry, b: bytes, f: bytes, t: bytes)
    requires infoClass != NAMES && |b| >= Fixed(infoClass) && FactsSay(f, e) && TailSays(infoClass, dir, t, e)
    requires Field(b, 8, 56) == f && Field(b, 64, |t|) == t
    ensures ReadDetails(infoClass, b) == DetailsOf(infoClass, dir, e)
    ensures U32At(b, 60) == Wrap32(|NameBytes(e.name)|)
  {
    FieldInside(b, 8, 56, 16, 8);
    FieldInside(b, 8, 56, 32, 8);
    FieldInside(b, 8, 56, 48, 4);
    FieldInside(b, 8, 56, 52, 4);
    if infoClass == ID_FULL { FieldInside(b, 64, |t|, 8, 8); }
    if infoClass == ID_BOTH {
      FieldInside(b, 64, |t|, 32, 8);
      FieldInside(b, 64, |t|, 0, 4);
    }
  }

  /** b holds e's record, up to its padding, with the given offset of the next one. */
  ghost predicate Holds(infoClass: byte, dir: Dir, e: Entry, next: u32, b: bytes) {
    var name := NameBytes(e.name);
    && |b| >= Fixed(infoClass) + |name|
    && U32At(b, 0) == next
    && U32At(b, NameLengthAt(infoClass)) == Wrap32(|name|)
    && b[Fixed(infoClass)..][..|name|] == name
    && ReadDetails(infoClass, b) == DetailsOf(infoClass, dir, e)
  }

  lemma HoldsFull(infoClass: byte, dir: Dir, e: Entry, next: u32, h: bytes, f: bytes, t: bytes, pad: bytes, rest: bytes)
    requires infoClass != NAMES && FactsSay(f, e) && TailSays(infoClass, dir, t, e) && |h| == 4 && Num4(h) == next
    ensures Holds(infoClass, dir, e, next, h + (Zeros(4) + f + t + NameBytes(e.name) + pad) + rest)
  {
    var b := h + (Zeros(4) + f + t + NameBytes(e.name) + pad) + rest;
    ParallelParts(h, Zeros(4), f, t, NameBytes(e.name), pad, rest);
    DetailsAreRead(infoClass, dir, e, b, f, t);
  }

  lemma HoldsName(dir: Dir, e: Entry, next: u32, h: bytes, n: bytes, pad: bytes, rest: bytes)
    requires |h| == 4 && Num4(h) == next && |n| == 4 && Num4(n) == Wrap32(|NameBytes(e.name)|)
    ensures Holds(NAMES, dir, e, next, h + (Zeros(4) + n + NameBytes(e.name) + pad) + rest)
  {
    NameParts(h, Zeros(4), n, NameBytes(e.name), pad, rest);
  }

  /** A record is held by what begins with it. */
  lemma RecordHolds(infoClass: byte, dir: Dir, e: Entry, next: u32, rest: bytes)
    ensures Holds(infoClass, dir, e, next, Record(infoClass, dir, e, next) + rest)
  {
    var pad := Zeros(Padded(infoClass, e) - Fixed(infoClass) - |NameBytes(e.name)|);
    var length := Wrap32(|NameBytes(e.name)|);
    Le32(next);
    if infoClass == NAMES {
      Le32(length);
      HoldsName(dir, e, next, Le(next, 4), Le(length, 4), pad, rest);
    } else {
      FactsSayThem(e);
      TailSaysIt(infoClass, dir, e);
      HoldsFull(infoClass, dir, e, next, Le(next, 4), Facts(e), Tail(infoClass, dir, e), pad, rest);
    }
  }

  /** What the client makes of an entry that stands at `at`. */
  function SeenAt(infoClass: byte, dir: Dir, e: Entry, at: nat): Seen {
    Seen(at, NameBytes(e.name), DetailsOf(infoClass, dir, e))
  }

  lemma HeldIsRead(infoClass: byte, dir: Dir, e: Entry, b: bytes, next: u32, at: nat)
    requires |NameBytes(e.name)| <= 0xFFFF_FF00 && Holds(infoClass, dir, e, next, b)
    ensures ReadRecord(infoClass, b, at) == Some(SeenAt(infoClass, dir, e, at)) && U32At(b, 0) == next
  {
  }

  lemma WalkOn(infoClass: byte, b: bytes, next: u32, at: nat, at': nat, seen: Seen, rest: seq<Seen>)
    requires |b| >= Fixed(infoClass) && ReadRecord(infoClass, b, at) == Some(seen)
    requires U32At(b, 0) == next && 0 < next <= |b|
    requires at' == at + next && Walk(infoClass, b[next..], at') == Some(rest)
    ensures Walk(infoClass, b, at) == Some([seen] + rest)
  {
  }

  lemma WalkEnds(infoClass: byte, dir: Dir, e: Entry, b: bytes, at: nat)
    requires |NameBytes(e.name)| <= 0xFFFF_FF00 && Holds(infoClass, dir, e, 0, b)
    ensures Walk(infoClass, b, at) == Some([SeenAt(infoClass, dir, e, at)])
  {
  }

  /** The client's walk from offset 0 finds exactly the entries that were encoded, in order, each with the
      fields its class carries, and ends at the last. */
  lemma {:induction false} ChainIsRead(infoClass: byte, dir: Dir, es: seq<Entry>, at: nat)
    requires es != [] && Short(es)
    ensures Walk(infoClass, Chain(infoClass, dir, es), at) == Some(SeenOf(infoClass, dir, es, at))
  {
    var at' := at + Padded(infoClass, es[0]);
    SeenOfHead(infoClass, dir, es, at, at');
    if |es| == 1 {
      ChainEnd(infoClass, dir, es[0], at);
    } else {
      ChainIsRead(infoClass, dir, es[1..], at');
      ChainStep(infoClass, dir, es[0], Chain(infoClass, dir, es[1..]), at, at');
    }
  }

  lemma SeenOfHead(infoClass: byte, dir: Dir, es: seq<Entry>, at: nat, at': nat)
    requires es != [] && at' == at + Padded(infoClass, es[0])
    ensures SeenOf(infoClass, dir, es, at) == [SeenAt(infoClass, dir, es[0], at)] + SeenOf(infoClass, dir, es[1..], at')
    ensures |es| == 1 ==> SeenOf(infoClass, dir, es, at) == [SeenAt(infoClass, dir, es[0], at)]
  {
  }

  lemma ChainStep(infoClass: byte, dir: Dir, e: Entry, rest: bytes, at: nat, at': nat)
    requires |NameBytes(e.name)| <= 0xFFFF_FF00 && at' == at + Padded(infoClass, e) && Walk(infoClass, rest, at').Some?
    ensures Walk(infoClass, Record(infoClass, dir, e, Padded(infoClass, e)) + rest, at)
      == Some([SeenAt(infoClass, dir, e, at)] + Walk(infoClass, rest, at').value)
  {
    var next := Padded(infoClass, e);
    var b := Record(infoClass, dir, e, next) + rest;
    RecordHolds(infoClass, dir, e, next, rest);
    assert b[next..] == rest;
    HeldIsRead(infoClass, dir, e, b, next, at);
    WalkOn(infoClass, b, next, at, at', SeenAt(infoClass, dir, e, at), Walk(infoClass, rest, at').value);
  }

  lemma ChainEnd(infoClass: byte, dir: Dir, e: Entry, at: nat)
    requires |NameBytes(e.name)| <= 0xFFFF_FF00
    ensures Walk(infoClass, Record(infoClass, dir, e, 0), at) == Some([SeenAt(infoClass, dir, e, at)])
  {
    RecordHolds(infoClass, dir, e, 0, []);
    assert Record(infoClass, dir, e, 0) + [] == Record(infoClass, dir, e, 0);
    WalkEnds(infoClass, dir, e, Record(infoClass, dir, e, 0), at);
  }

  /** Every record stands where those before it end, at a multiple of 8. */
  lemma {:induction false} RecordsAreAligned(infoClass: byte, dir: Dir, es: seq<Entry>, at: nat, k: nat)
    requires k < |es| && at % 8 == 0
    ensures |SeenOf(infoClass, dir, es, at)| == |es|
    ensures SeenOf(infoClass, dir, es, at)[k].at == at + Size(infoClass, es[..k])
    ensures SeenOf(infoClass, dir, es, at)[k].at % 8 == 0
  {
    if |es| > 1 { RecordsAreAligned(infoClass, dir, es[1..], at + Padded(infoClass, es[0]), if k > 0 then k - 1 else 0); }
    if k > 0 {
      assert es[..k][1..] == es[1..][..k - 1];
    }
  }
}
