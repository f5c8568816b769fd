/** QUERY_DIRECTORY (internal/smb/info.go): finding the entries, and handing them out page by page. */
module Enumerate {
  import opened Bytes
  import Utf16
  import opened DirBuffer
  import Wildcard

  // ----- search patterns -----

  /** How a backend treats case: lower and same stand for strings.ToLower and strings.EqualFold. */
  datatype Folding = Folding(insensitive: bool, lower: string -> string, same: (string, string) -> bool) {
    predicate Same(a: string, b: string) { if insensitive then same(a, b) else a == b }
    function Lower(a: string): string { if insensitive then lower(a) else a }
  }

  /** The legacy DOS wildcards stand for the usual ones. */
  function Modern(pattern: string): (p: string)
    ensures |p| == |pattern|
  {
    seq(|pattern|, i requires 0 <= i < |pattern| =>
      if pattern[i] == '<' then '*' else if pattern[i] == '>' then '?' else pattern[i])
  }

  predicate HasWild(pattern: string) { '*' in pattern || '?' in pattern }

  predicate Matches(pattern: string, name: string, f: Folding) {
    var p := Modern(pattern);
    if HasWild(p) then Wildcard.Answer(f.Lower(p), f.Lower(name), Wildcard.START) else f.Same(p, name)
  }

  method MatchPattern(pattern: string, name: string, f: Folding) returns (matched: bool)
    ensures matched <==> Matches(pattern, name, f)
  {
    var p := Modern(pattern);
    if !HasWild(p) { return f.Same(p, name); }
    matched := Wildcard.WildcardMatch(f.Lower(p), f.Lower(name));
  }

  /** What a pattern means: equality, or the glob, as long as no name holds a star of its own. */
  lemma MatchesIsGlob(pattern: string, name: string, f: Folding)
    requires '*' !in f.Lower(name)
    ensures var p := Modern(pattern);
      Matches(pattern, name, f) <==> if HasWild(p) then Wildcard.Glob(f.Lower(p), f.Lower(name)) else f.Same(p, name)
  {
    Wildcard.AgreesWithGlob(f.Lower(Modern(pattern)), f.Lower(name));
  }

  function Filter(es: seq<Entry>, pattern: string, f: Folding): seq<Entry> {
    if es == [] then []
    else (if Matches(pattern, es[0].name, f) then [es[0]] else []) + Filter(es[1..], pattern, f)
  }

  function Filtered(es: seq<Entry>, pattern: string, f: Folding): seq<Entry> {
    if pattern == "" || pattern == "*" then es else Filter(es, pattern, f)
  }

  lemma {:induction false} FilterSnoc(es: seq<Entry>, e: Entry, pattern: string, f: Folding)
    ensures Filter(es + [e], pattern, f)
      == Filter(es, pattern, f) + (if Matches(pattern, e.name, f) then [e] else [])
  {
    if es != [] {
      assert (es + [e])[1..] == es[1..] + [e];
      FilterSnoc(es[1..], e, pattern, f);
    }
  }

  method FilterByPattern(es: seq<Entry>, pattern: string, f: Folding) returns (out: seq<Entry>)
    ensures out == Filtered(es, pattern, f)
  {
    if pattern == "" || pattern == "*" { return es; }
    out := [];
    for i := 0 to |es|
      invariant out == Filter(es[..i], pattern, f)
    {
      var matched := MatchPattern(pattern, es[i].name, f);
      FilterSnoc(es[..i], es[i], pattern, f);
      assert es[..i + 1] == es[..i] + [es[i]];
      if matched { out := out + [es[i]]; }
    }
    assert es[..|es|] == es;
  }

  /** The shortcut for "*" is what filtering would give. (The one for the empty pattern is not: no name matches
      it, and it stands for all of them.) */
  lemma {:induction false} StarKeepsAll(es: seq<Entry>, f: Folding)
    requires f.Lower("*") == "*" && forall i :: 0 <= i < |es| ==> '*' !in f.Lower(es[i].name)
    ensures Filter(es, "*", f) == es
  {
    if es != [] {
      MatchesIsGlob("*", es[0].name, f);
      assert Modern("*") == "*";
      StarTakesAll(f.Lower(es[0].name));
      StarKeepsAll(es[1..], f);
      assert es == [es[0]] + es[1..];
    }
  }

  lemma {:induction false} StarTakesAll(name: string)
    ensures Wildcard.Glob("*", name)
  {
    if name != "" { StarTakesAll(name[1..]); }
  }

  // ----- finding the entries -----

  /** joinPath */
  function JoinPath(dir: string, name: string): string {
    if dir == "" then name else dir + "/" + name
  }

  /** The backend's answers, should they be asked for: Stat of the child the pattern names, and ReadDir. */
  datatype Answers = Answers(stat: Option<Entry>, list: Option<seq<Entry>>)

  predicate SingleName(pattern: string) {
    pattern != "" && forall i :: 0 <= i < |pattern| ==> pattern[i] !in ['*', '?', '<', '>', '"']
  }

  /** One stat answers a lookup by name; anything else is listed and filtered. A folder that cannot be listed
      is reported empty. */
  function Found(pattern: string, a: Answers, f: Folding): seq<Entry> {
    if SingleName(pattern) then (if a.stat.Some? then [a.stat.value] else [])
    else Filtered(a.list.GetOr([]), pattern, f)
  }

  lemma PlainPattern(pattern: string)
    requires SingleName(pattern)
    ensures Modern(pattern) == pattern && !HasWild(pattern)
  {
  }

  lemma {:induction false} FilterNone(es: seq<Entry>, pattern: string, f: Folding)
    requires SingleName(pattern) && forall i :: 0 <= i < |es| ==> !f.Same(pattern, es[i].name)
    ensures Filter(es, pattern, f) == []
  {
    PlainPattern(pattern);
    if es != [] { FilterNone(es[1..], pattern, f); }
  }

  lemma {:induction false} FilterOne(es: seq<Entry>, pattern: string, f: Folding, k: nat)
    requires SingleName(pattern) && k < |es|
    requires forall i :: 0 <= i < |es| ==> (f.Same(pattern, es[i].name) <==> i == k)
    ensures Filter(es, pattern, f) == [es[k]]
  {
    PlainPattern(pattern);
    if k == 0 { FilterNone(es[1..], pattern, f); } else { FilterOne(es[1..], pattern, f, k - 1); }
  }

  // ----- pages -----

  datatype Query = Query(restart: bool, single: bool, pattern: string, infoClass: byte, maxLen: nat)

  /** The enumeration state of an open folder. */
  datatype Cursor = Cursor(entries: seq<Entry>, pos: nat, loaded: bool)

  datatype Reply = NoMoreFiles | Page(buf: bytes)

  /** The state once the entries are there; a loaded listing is never replaced without a restart, whatever the
      pattern of a later query. */
  function Loaded(c: Cursor, q: Query, a: Answers, f: Folding): Cursor {
    if c.loaded && !q.restart then c else Cursor(Found(q.pattern, a, f), 0, true)
  }

  /** From a loaded listing: nothing is left, or a page of the next entries is sent and the position moves past
      them. */
  ghost predicate Served(dir: Dir, s: Cursor, q: Query, c': Cursor, reply: Reply) {
    if s.pos >= |s.entries| then reply == NoMoreFiles && c' == s
    else
      && s.pos < c'.pos <= |s.entries| && c' == s.(pos := c'.pos)
      && PageFits(q, s.entries[s.pos..], c'.pos - s.pos)
      && reply == Page(Chain(q.infoClass, dir, s.entries[s.pos..][..c'.pos - s.pos]))
  }

  /** One query. */
  ghost predicate Answered(f: Folding, dir: Dir, c: Cursor, q: Query, a: Answers, c': Cursor, reply: Reply) {
    Served(dir, Loaded(c, q, a, f), q, c', reply)
  }

  /** n entries are sent: one if only one is wanted, otherwise as many as the buffer holds but at least one. */
  ghost predicate PageFits(q: Query, left: seq<Entry>, n: nat) {
    && 0 < n <= |left|
    && (q.single ==> n == 1)
    && Size(q.infoClass, left[..n]) <= Max(q.maxLen, Padded(q.infoClass, left[0]))
    && (!q.single && n < |left| ==> Size(q.infoClass, left[..n]) + Padded(q.infoClass, left[n]) > q.maxLen)
  }

  /** So a page of more than one entry stays within the buffer, and one entry more would not have. */
  lemma PageMeans(q: Query, left: seq<Entry>, n: nat)
    requires PageFits(q, left, n)
    ensures q.single ==> n == 1
    ensures n > 1 && Padded(q.infoClass, left[0]) <= q.maxLen ==> Size(q.infoClass, left[..n]) <= q.maxLen
    ensures !q.single && n < |left| ==> Size(q.infoClass, left[..n + 1]) > q.maxLen
  {
    if n < |left| {
      SizeSnoc(q.infoClass, left[..n], left[n]);
      assert left[..n + 1] == left[..n] + [left[n]];
    }
  }

  method NextPage(q: Query, left: seq<Entry>, dir: Dir) returns (buf: bytes, n: nat)
    requires left != []
    ensures PageFits(q, left, n) && buf == Chain(q.infoClass, dir, left[..n])
  {
    var entries := if q.single && |left| > 1 then left[..1] else left;
    buf, n := BuildDirInfoBuffer(entries, q.maxLen, q.infoClass, dir);
    assert entries[..n] == left[..n];
    Sizes(q.infoClass, dir, left[..n]);
  }

  lemma ServedBy(dir: Dir, s: Cursor, q: Query, n: nat, buf: bytes)
    requires s.pos < |s.entries| && PageFits(q, s.entries[s.pos..], n)
    requires buf == Chain(q.infoClass, dir, s.entries[s.pos..][..n])
    ensures Served(dir, s, q, s.(pos := s.pos + n), Page(buf))
  {
  }

  class OpenDir {
    const folding: Folding
    var dirEntries: seq<Entry>
    var dirPos: nat
    var dirLoaded: bool

    function State(): Cursor
      reads this
    {
      Cursor(dirEntries, dirPos, dirLoaded)
    }

    constructor (folding: Folding)
      ensures this.folding == folding && !dirLoaded
    {
      this.folding, dirEntries, dirPos, dirLoaded := folding, [], 0, false;
    }

    constructor At(folding: Folding, c: Cursor)
      ensures this.folding == folding && State() == c
    {
      this.folding, dirEntries, dirPos, dirLoaded := folding, c.entries, c.pos, c.loaded;
    }

    /** handleQueryDirectory, once its open is known to be a folder. */
    method QueryDirectory(q: Query, a: Answers, dir: Dir) returns (reply: Reply)
      modifies this
      ensures Answered(folding, dir, old(State()), q, a, State(), reply)
    {
      if q.restart {
        dirEntries, dirPos, dirLoaded := [], 0, false;
      }
      Load(q.pattern, a);
      reply := Serve(q, dir);
    }

    method Serve(q: Query, dir: Dir) returns (reply: Reply)
      modifies this
      ensures Served(dir, old(State()), q, State(), reply)
    {
      if dirPos >= |dirEntries| { return NoMoreFiles; }
      var buf, n := NextPage(q, dirEntries[dirPos..], dir);
      ServedBy(dir, State(), q, n, buf);
      dirPos := dirPos + n;
      reply := Page(buf);
    }

    method Load(pattern: string, a: Answers)
      modifies this
      ensures State() == if old(dirLoaded) then old(State()) else Cursor(Found(pattern, a, folding), 0, true)
    {
      if !dirLoaded && SingleName(pattern) {
        dirEntries := [];
        if a.stat.Some? { dirEntries := [a.stat.value]; }
        dirPos, dirLoaded := 0, true;
      }
      if !dirLoaded {
        dirEntries := FilterByPattern(a.list.GetOr([]), pattern, folding);
        dirPos, dirLoaded := 0, true;
      }
    }
  }

  /** The same for a folder whose enumeration state is kept elsewhere. */
  method Serve(f: Folding, dir: Dir, c: Cursor, q: Query, a: Answers) returns (c': Cursor, reply: Reply)
    ensures Answered(f, dir, c, q, a, c', reply)
  {
    var d := new OpenDir.At(f, c);
    reply := d.QueryDirectory(q, a, dir);
    c' := d.State();
  }

  // ----- a whole scan -----

  /** A query with its circumstances and its answer. */
  datatype Turn = Turn(q: Query, a: Answers, dir: Dir, reply: Reply)

  ghost predicate TurnAt(f: Folding, turns: seq<Turn>, cs: seq<Cursor>, i: nat)
    requires i < |turns| && |cs| == |turns| + 1
  {
    Answered(f, turns[i].dir, cs[i], turns[i].q, turns[i].a, cs[i + 1], turns[i].reply)
  }

  /** Queries on one open folder, from one that starts afresh and up to the next restart. */
  ghost predicate Scan(f: Folding, turns: seq<Turn>, cs: seq<Cursor>) {
    && |turns| > 0 && |cs| == |turns| + 1
    && (turns[0].q.restart || !cs[0].loaded)
    && (forall i :: 0 < i < |turns| ==> !turns[i].q.restart)
    && forall i: nat :: i < |turns| ==> TurnAt(f, turns, cs, i)
  }

  /** What the first query finds. */
  function Listing(f: Folding, turns: seq<Turn>): seq<Entry>
    requires |turns| > 0
  {
    Found(turns[0].q.pattern, turns[0].a, f)
  }

  /** What a client learns of an entry: its name, and the fields the class of its page has. */
  datatype Item = Item(name: string, details: Details)

  function ItemOf(infoClass: byte, dir: Dir, e: Entry): Item { Item(e.name, DetailsOf(infoClass, dir, e)) }

  function ItemsOf(infoClass: byte, dir: Dir, es: seq<Entry>): (items: seq<Item>)
    ensures |items| == |es|
    ensures forall i :: 0 <= i < |es| ==> items[i] == ItemOf(infoClass, dir, es[i])
  {
    seq(|es|, i requires 0 <= i < |es| => ItemOf(infoClass, dir, es[i]))
  }

  function ItemSeen(seen: Seen): Item { Item(Utf16.NameText(seen.name), seen.details) }

  function ItemsSeen(seen: seq<Seen>): (items: seq<Item>)
    ensures |items| == |seen|
  {
    seq(|seen|, i requires 0 <= i < |seen| => ItemSeen(seen[i]))
  }

  /** What a client reads in an answer. */
  function ItemsIn(infoClass: byte, reply: Reply): seq<Item> {
    match reply
    case NoMoreFiles => []
    case Page(buf) => var seen := Walk(infoClass, buf, 0); if seen.Some? then ItemsSeen(seen.value) else []
  }

  /** What a client has read in all the answers, in order. */
  function Received(turns: seq<Turn>): seq<Item> {
    if turns == [] then []
    else
      var t := turns[|turns| - 1];
      Received(turns[..|turns| - 1]) + ItemsIn(t.q.infoClass, t.reply)
  }

  /** The item tells of the entry, in the fields of the class that some query asked for. */
  ghost predicate Tells(turns: seq<Turn>, item: Item, e: Entry) {
    exists i: nat :: ToldBy(turns, i, item, e)
  }

  ghost predicate ToldBy(turns: seq<Turn>, i: nat, item: Item, e: Entry) {
    i < |turns| && turns[i].reply.Page? && item == ItemOf(turns[i].q.infoClass, turns[i].dir, e)
  }

  /** One item for each entry, in order. */
  ghost predicate Conveys(turns: seq<Turn>, items: seq<Item>, es: seq<Entry>) {
    |items| == |es| && forall k :: 0 <= k < |es| ==> Tells(turns, items[k], es[k])
  }

  function Pages(turns: seq<Turn>): nat {
    if turns == [] then 0 else Pages(turns[..|turns| - 1]) + (if turns[|turns| - 1].reply.Page? then 1 else 0)
  }

  lemma {:induction false} SeenAreEntries(infoClass: byte, dir: Dir, es: seq<Entry>, at: nat, k: nat)
    requires k < |es|
    ensures |SeenOf(infoClass, dir, es, at)| == |es|
    ensures ItemSeen(SeenOf(infoClass, dir, es, at)[k]) == ItemOf(infoClass, dir, es[k])
  {
    var at' := at + Padded(infoClass, es[0]);
    SeenOfHead(infoClass, dir, es, at, at');
    if k == 0 { Utf16.NameIsReadBack(es[0].name); }
    if |es| > 1 { SeenAreEntries(infoClass, dir, es[1..], at', if k == 0 then 0 else k - 1); }
  }

  lemma SeenAreItems(infoClass: byte, dir: Dir, es: seq<Entry>, at: nat)
    requires es != []
    ensures ItemsSeen(SeenOf(infoClass, dir, es, at)) == ItemsOf(infoClass, dir, es)
  {
    SeenAreEntries(infoClass, dir, es, at, 0);
    forall k: nat | k < |es| ensures ItemSeen(SeenOf(infoClass, dir, es, at)[k]) == ItemOf(infoClass, dir, es[k]) {
      SeenAreEntries(infoClass, dir, es, at, k);
    }
  }

  /** A page is read as the entries put into it. */
  lemma PageIsRead(infoClass: byte, dir: Dir, es: seq<Entry>)
    requires es != [] && Short(es)
    ensures ItemsIn(infoClass, Page(Chain(infoClass, dir, es))) == ItemsOf(infoClass, dir, es)
  {
    ChainIsRead(infoClass, dir, es, 0);
    SeenAreItems(infoClass, dir, es, 0);
  }

  /** One query moves the position by exactly the entries it delivers. */
  ghost predicate Delivered(s: Cursor, infoClass: byte, dir: Dir, c': Cursor, reply: Reply) {
    && s.pos <= c'.pos <= |s.entries| && c' == s.(pos := c'.pos)
    && ItemsIn(infoClass, reply) == ItemsOf(infoClass, dir, s.entries[s.pos..c'.pos])
    && (reply.Page? ==> s.pos < c'.pos) && (reply.NoMoreFiles? ==> s.pos == c'.pos == |s.entries|)
  }

  lemma ServedDelivers(dir: Dir, s: Cursor, q: Query, c': Cursor, reply: Reply)
    requires Served(dir, s, q, c', reply) && Short(s.entries) && s.pos <= |s.entries|
    ensures Delivered(s, q.infoClass, dir, c', reply)
  {
    if s.pos < |s.entries| {
      var page := s.entries[s.pos..][..c'.pos - s.pos];
      assert s.entries[s.pos..c'.pos] == page;
      PageIsRead(q.infoClass, dir, page);
    }
  }

  /** After n queries of a scan. */
  ghost predicate Reached(f: Folding, turns: seq<Turn>, n: nat, c: Cursor)
    requires 0 < n <= |turns|
  {
    && c.loaded && c.entries == Listing(f, turns) && c.pos <= |c.entries|
    && Conveys(turns, Received(turns[..n]), c.entries[..c.pos])
    && Pages(turns[..n]) <= c.pos
  }

  /** The state query n is served from. */
  function From(f: Folding, turns: seq<Turn>, cs: seq<Cursor>, n: nat): Cursor
    requires n < |turns| && |cs| == |turns| + 1
  {
    Loaded(cs[n], turns[n].q, turns[n].a, f)
  }

  lemma TurnDelivers(f: Folding, turns: seq<Turn>, cs: seq<Cursor>, n: nat)
    requires Scan(f, turns, cs) && Short(Listing(f, turns)) && n < |turns|
    requires n > 0 ==> Reached(f, turns, n, cs[n])
    ensures From(f, turns, cs, n) == if n == 0 then Cursor(Listing(f, turns), 0, true) else cs[n]
    ensures Delivered(From(f, turns, cs, n), turns[n].q.infoClass, turns[n].dir, cs[n + 1], turns[n].reply)
  {
    assert TurnAt(f, turns, cs, n);
    ServedDelivers(turns[n].dir, From(f, turns, cs, n), turns[n].q, cs[n + 1], turns[n].reply);
  }

  /** What turn n delivers tells of the entries it passes. */
  lemma ConveysMore(turns: seq<Turn>, n: nat, items: seq<Item>, es: seq<Entry>, more: seq<Item>, page: seq<Entry>)
    requires n < |turns| && Conveys(turns, items, es) && (page != [] ==> turns[n].reply.Page?)
    requires more == ItemsOf(turns[n].q.infoClass, turns[n].dir, page)
    ensures Conveys(turns, items + more, es + page)
  {
    forall k | 0 <= k < |es| + |page| ensures Tells(turns, (items + more)[k], (es + page)[k]) {
      if k >= |es| { assert ToldBy(turns, n, more[k - |es|], page[k - |es|]); }
    }
  }

  lemma OneMoreTurn(turns: seq<Turn>, n: nat)
    requires n < |turns|
    ensures Received(turns[..n + 1]) == Received(turns[..n]) + ItemsIn(turns[n].q.infoClass, turns[n].reply)
    ensures Pages(turns[..n + 1]) == Pages(turns[..n]) + (if turns[n].reply.Page? then 1 else 0)
  {
    assert turns[..n + 1][..n] == turns[..n];
  }

  lemma DeliveredConveys(turns: seq<Turn>, n: nat, es: seq<Entry>, from: nat, to: nat, items: seq<Item>, more: seq<Item>)
    requires n < |turns| && from <= to <= |es| && (from < to ==> turns[n].reply.Page?)
    requires more == ItemsOf(turns[n].q.infoClass, turns[n].dir, es[from..to])
    requires Conveys(turns, items, es[..from])
    ensures Conveys(turns, items + more, es[..to])
  {
    assert es[..to] == es[..from] + es[from..to];
    ConveysMore(turns, n, items, es[..from], more, es[from..to]);
  }

  lemma ReachedNext(f: Folding, turns: seq<Turn>, cs: seq<Cursor>, n: nat)
    requires Scan(f, turns, cs) && Short(Listing(f, turns)) && n < |turns|
    requires n > 0 ==> Reached(f, turns, n, cs[n])
    ensures Reached(f, turns, n + 1, cs[n + 1])
  {
    TurnDelivers(f, turns, cs, n);
    OneMoreTurn(turns, n);
    var s := From(f, turns, cs, n);
    assert n == 0 ==> Received(turns[..n]) == [] && s.entries[..s.pos] == [];
    DeliveredConveys(turns, n, s.entries, s.pos, cs[n + 1].pos, Received(turns[..n]),
      ItemsIn(turns[n].q.infoClass, turns[n].reply));
  }

  lemma {:induction false} ScanReaches(f: Folding, turns: seq<Turn>, cs: seq<Cursor>, n: nat)
    requires Scan(f, turns, cs) && Short(Listing(f, turns)) && 0 < n <= |turns|
    ensures Reached(f, turns, n, cs[n])
  {
    if n > 1 { ScanReaches(f, turns, cs, n - 1); }
    ReachedNext(f, turns, cs, n - 1);
  }

  /** A query answered with NO_MORE_FILES has found the listing used up, and so does every later one. */
  lemma {:induction false} StaysUsedUp(f: Folding, turns: seq<Turn>, cs: seq<Cursor>, i: nat, j: nat)
    requires Scan(f, turns, cs) && Short(Listing(f, turns)) && i <= j < |turns| && turns[i].reply.NoMoreFiles?
    ensures turns[j].reply.NoMoreFiles? && cs[j + 1].pos == |Listing(f, turns)|
    decreases j
  {
    if j > 0 { ScanReaches(f, turns, cs, j); }
    TurnDelivers(f, turns, cs, j);
    if i < j { StaysUsedUp(f, turns, cs, i, j - 1); }
  }

  /** Whatever the sizes of the client's buffers, the information classes and the single-entry flags: what it
      reads is the listing, entry by entry and in order, none lost and none twice, each with the fields its
      page's class has; there are at most as many pages as entries; and NO_MORE_FILES comes only when all have
      been sent, and then for good. */
  lemma EveryEntryOnce(f: Folding, turns: seq<Turn>, cs: seq<Cursor>)
    requires Scan(f, turns, cs) && Short(Listing(f, turns))
    ensures var listing, n := Listing(f, turns), |Received(turns)|;
      && n <= |listing| && Conveys(turns, Received(turns), listing[..n]) && Pages(turns) <= n
      && forall i: nat, j: nat :: i <= j < |turns| && turns[i].reply.NoMoreFiles? ==>
           turns[j].reply.NoMoreFiles? && n == |listing|
  {
    ScanReaches(f, turns, cs, |turns|);
    assert turns[..|turns|] == turns;
    forall i: nat, j: nat | i <= j < |turns| && turns[i].reply.NoMoreFiles?
      ensures turns[j].reply.NoMoreFiles? && |Received(turns)| == |Listing(f, turns)|
    {
      StaysUsedUp(f, turns, cs, i, j);
      StaysUsedUp(f, turns, cs, i, |turns| - 1);
    }
  }

  lemma {:induction false} AllPages(turns: seq<Turn>)
    requires forall i :: 0 <= i < |turns| ==> turns[i].reply.Page?
    ensures Pages(turns) == |turns|
  {
    if turns != [] { AllPages(turns[..|turns| - 1]); }
  }

  /** So a client that keeps asking gets everything: one query more than there are entries is enough. */
  lemma AskingOnceMoreThanEntries(f: Folding, turns: seq<Turn>, cs: seq<Cursor>)
    requires Scan(f, turns, cs) && Short(Listing(f, turns)) && |turns| > |Listing(f, turns)|
    ensures Conveys(turns, Received(turns), Listing(f, turns)) && turns[|turns| - 1].reply == NoMoreFiles
  {
    EveryEntryOnce(f, turns, cs);
    if forall i :: 0 <= i < |turns| ==> turns[i].reply.Page? {
      AllPages(turns);
      assert false;
    }
    var i :| 0 <= i < |turns| && turns[i].reply.NoMoreFiles?;
    assert i <= |turns| - 1;
    assert Listing(f, turns)[..|Received(turns)|] == Listing(f, turns);
  }

  // ----- which entries a scan gives -----

  /** p is the pattern in its usual form: '<' stands for '*' and '>' for '?'. */
  predicate UsualForm(pattern: string, p: string) {
    |p| == |pattern| && forall i :: 0 <= i < |p| ==>
      p[i] == if pattern[i] == '<' then '*' else if pattern[i] == '>' then '?' else pattern[i]
  }

  /** A name fits: equality where the pattern has no wildcard, the glob otherwise, both up to case where the
      backend ignores it. */
  ghost predicate Fits(p: string, name: string, f: Folding) {
    if '*' in p || '?' in p then
      if f.insensitive then Wildcard.Glob(f.lower(p), f.lower(name)) else Wildcard.Glob(p, name)
    else if f.insensitive then f.same(p, name)
    else p == name
  }

  /** The matcher can be trusted on the listing: no name holds a star of its own. */
  ghost predicate NoStars(es: seq<Entry>, f: Folding) {
    forall i :: 0 <= i < |es| ==> '*' !in if f.insensitive then f.lower(es[i].name) else es[i].name
  }

  /** idx lists, in order, exactly the places of the entries that fit. */
  ghost predicate Picks(es: seq<Entry>, idx: seq<nat>, p: string, f: Folding) {
    && (forall a, b :: 0 <= a < b < |idx| ==> idx[a] < idx[b])
    && (forall a :: 0 <= a < |idx| ==> idx[a] < |es|)
    && forall i: nat :: i < |es| ==> (i in idx <==> Fits(p, es[i].name, f))
  }

  function Picked(es: seq<Entry>, idx: seq<nat>): (picked: seq<Entry>)
    requires forall a :: 0 <= a < |idx| ==> idx[a] < |es|
    ensures |picked| == |idx| && forall a :: 0 <= a < |idx| ==> picked[a] == es[idx[a]]
  {
    seq(|idx|, a requires 0 <= a < |idx| => es[idx[a]])
  }

  lemma MatchesMeansFits(pattern: string, p: string, name: string, f: Folding)
    requires UsualForm(pattern, p) && '*' !in if f.insensitive then f.lower(name) else name
    ensures Matches(pattern, name, f) <==> Fits(p, name, f)
  {
    assert Modern(pattern) == p;
    MatchesIsGlob(pattern, name, f);
  }

  lemma {:induction false} FilterPicks(es: seq<Entry>, pattern: string, p: string, f: Folding) returns (idx: seq<nat>)
    requires UsualForm(pattern, p) && NoStars(es, f)
    ensures Picks(es, idx, p, f) && Filter(es, pattern, f) == Picked(es, idx)
  {
    if es == [] { return []; }
    var n := |es| - 1;
    var before := FilterPicks(es[..n], pattern, p, f);
    assert es == es[..n] + [es[n]];
    FilterSnoc(es[..n], es[n], pattern, f);
    MatchesMeansFits(pattern, p, es[n].name, f);
    idx := if Matches(pattern, es[n].name, f) then before + [n] else before;
    PickOneMore(es, before, p, f);
  }

  lemma PickOneMore(es: seq<Entry>, before: seq<nat>, p: string, f: Folding)
    requires es != [] && Picks(es[..|es| - 1], before, p, f)
    ensures var n := |es| - 1;
      var idx := if Fits(p, es[n].name, f) then before + [n] else before;
      Picks(es, idx, p, f)
      && Picked(es, idx) == Picked(es[..n], before) + (if Fits(p, es[n].name, f) then [es[n]] else [])
  {
    var n := |es| - 1;
    if Fits(p, es[n].name, f) { PickLast(es, before, p, f); } else { PassLast(es, before, p, f); }
  }

  lemma PickLast(es: seq<Entry>, before: seq<nat>, p: string, f: Folding)
    requires es != [] && Picks(es[..|es| - 1], before, p, f) && Fits(p, es[|es| - 1].name, f)
    ensures var n := |es| - 1;
      Picks(es, before + [n], p, f) && Picked(es, before + [n]) == Picked(es[..n], before) + [es[n]]
  {
    var n := |es| - 1;
    forall i: nat | i < |es| ensures i in before + [n] <==> Fits(p, es[i].name, f) {
      if i < n { assert i in before <==> Fits(p, es[..n][i].name, f); }
    }
  }

  lemma PassLast(es: seq<Entry>, before: seq<nat>, p: string, f: Folding)
    requires es != [] && Picks(es[..|es| - 1], before, p, f) && !Fits(p, es[|es| - 1].name, f)
    ensures Picks(es, before, p, f) && Picked(es, before) == Picked(es[..|es| - 1], before) + []
  {
    var n := |es| - 1;
    forall i: nat | i < |es| ensures i in before <==> Fits(p, es[i].name, f) {
      if i < n { assert i in before <==> Fits(p, es[..n][i].name, f); }
    }
  }

  lemma PickedAreShort(es: seq<Entry>, idx: seq<nat>)
    requires Short(es) && forall a :: 0 <= a < |idx| ==> idx[a] < |es|
    ensures Short(Picked(es, idx))
  {
  }

  /** A scan to its end. */
  ghost predicate WholeScan(f: Folding, turns: seq<Turn>, cs: seq<Cursor>) {
    Scan(f, turns, cs) && turns[|turns| - 1].reply.NoMoreFiles?
  }

  lemma WholeScanConveys(f: Folding, turns: seq<Turn>, cs: seq<Cursor>)
    requires WholeScan(f, turns, cs) && Short(Listing(f, turns))
    ensures Conveys(turns, Received(turns), Listing(f, turns))
  {
    EveryEntryOnce(f, turns, cs);
    assert Listing(f, turns)[..|Received(turns)|] == Listing(f, turns);
  }

  /** What a client has decoded after a whole scan with a pattern that is no single name: of what ReadDir lists,
      exactly the entries whose names fit, in order and as often as they are listed; none when the folder cannot
      be listed. */
  lemma ScanGivesWhatFits(f: Folding, turns: seq<Turn>, cs: seq<Cursor>, p: string) returns (idx: seq<nat>)
    requires WholeScan(f, turns, cs)
    requires var pattern := turns[0].q.pattern;
      pattern != "" && pattern != "*" && UsualForm(pattern, p)
      && ('*' in pattern || '?' in pattern || '<' in pattern || '>' in pattern || '"' in pattern)
    requires var list := turns[0].a.list.GetOr([]); Short(list) && NoStars(list, f)
    ensures var list := turns[0].a.list.GetOr([]);
      Picks(list, idx, p, f) && Conveys(turns, Received(turns), Picked(list, idx))
  {
    var list := turns[0].a.list.GetOr([]);
    idx := FilterPicks(list, turns[0].q.pattern, p, f);
    PickedAreShort(list, idx);
    assert Listing(f, turns) == Picked(list, idx);
    WholeScanConveys(f, turns, cs);
  }

  /** With the empty pattern or "*": all of them. */
  lemma ScanGivesAll(f: Folding, turns: seq<Turn>, cs: seq<Cursor>)
    requires WholeScan(f, turns, cs) && turns[0].q.pattern in ["", "*"] && Short(turns[0].a.list.GetOr([]))
    ensures Conveys(turns, Received(turns), turns[0].a.list.GetOr([]))
  {
    if turns[0].q.pattern == "*" { assert turns[0].q.pattern[0] == '*'; }
    assert !SingleName(turns[0].q.pattern);
    assert Listing(f, turns) == turns[0].a.list.GetOr([]);
    WholeScanConveys(f, turns, cs);
  }

  /** With a single name: what the one Stat found, if anything. */
  lemma ScanGivesTheOne(f: Folding, turns: seq<Turn>, cs: seq<Cursor>)
    requires WholeScan(f, turns, cs) && turns[0].q.pattern != ""
    requires var pattern := turns[0].q.pattern;
      '*' !in pattern && '?' !in pattern && '<' !in pattern && '>' !in pattern && '"' !in pattern
    requires turns[0].a.stat.Some? ==> Short([turns[0].a.stat.value])
    ensures Conveys(turns, Received(turns), if turns[0].a.stat.Some? then [turns[0].a.stat.value] else [])
  {
    WholeScanConveys(f, turns, cs);
  }
}
