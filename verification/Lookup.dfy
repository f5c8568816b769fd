/** A lookup by name against a listing, on a backend: a tree of folders, whose paths are cleaned before they
    are followed (resolve in internal/localfs/localfs.go, joinPath in internal/smb/create.go).
  */
module Lookup {
  import opened Bytes
  import opened DirBuffer
  import opened Enumerate

  // ----- paths -----

  /** The parts between slashes. */
  function Parts(p: string): (parts: seq<string>)
    ensures |parts| > 0
  {
    if p == "" then [""]
    else
      var rest := Parts(p[1..]);
      if p[0] == '/' then [""] + rest else [[p[0]] + rest[0]] + rest[1..]
  }

  /** path.Clean of an anchored path, part by part: empty parts and "." go, ".." takes back the one before. */
  function Cleaned(done: seq<string>, parts: seq<string>): seq<string>
    decreases |parts|
  {
    if parts == [] then done
    else if parts[0] == "" || parts[0] == "." then Cleaned(done, parts[1..])
    else if parts[0] == ".." then Cleaned(if done == [] then [] else done[..|done| - 1], parts[1..])
    else Cleaned(done + [parts[0]], parts[1..])
  }

  function Resolved(p: string): seq<string> { Cleaned([], Parts(p)) }

  // ----- the backend -----

  datatype Node = File(readOnly: bool, size: u64, time: u64) | Folder(time: u64, children: seq<Child>)

  datatype Child = Child(name: string, node: Node)

  function EntryOf(name: string, n: Node): Entry {
    match n
    case File(readOnly, size, time) => Entry(name, false, readOnly, size, time)
    case Folder(time, _) => Entry(name, true, false, 0, time)
  }

  /** An entry says of a node what it is. */
  lemma EntriesSayWhatIs(name: string, n: Node)
    ensures var e := EntryOf(name, n);
      e.name == name && e.isDir == n.Folder? && e.time == n.time && (n.File? ==> e.readOnly == n.readOnly && e.size == n.size)
  {
  }

  /** The child a name stands for, as the backend compares names. */
  function ChildOf(f: Folding, children: seq<Child>, name: string): Option<Node> {
    if children == [] then None
    else if f.Same(name, children[0].name) then Some(children[0].node)
    else ChildOf(f, children[1..], name)
  }

  function At(f: Folding, n: Node, path: seq<string>): Option<Node>
    decreases |path|
  {
    if path == [] then Some(n)
    else if n.File? then None
    else
      var child := ChildOf(f, n.children, path[0]);
      if child.None? then None else At(f, child.value, path[1..])
  }

  /** Stat: what stands at a path, under the name asked for. */
  function Stat(f: Folding, root: Node, p: string): Option<Entry> {
    var path := Resolved(p);
    var n := At(f, root, path);
    if n.None? then None else Some(EntryOf(if path == [] then "" else path[|path| - 1], n.value))
  }

  function EntriesOf(children: seq<Child>): (es: seq<Entry>)
    ensures |es| == |children|
    ensures forall i :: 0 <= i < |es| ==> es[i] == EntryOf(children[i].name, children[i].node)
  {
    seq(|children|, i requires 0 <= i < |children| => EntryOf(children[i].name, children[i].node))
  }

  /** ReadDir: a folder's children under the names they have. */
  function ReadDir(f: Folding, root: Node, p: string): Option<seq<Entry>> {
    var n := At(f, root, Resolved(p));
    if n.None? || n.value.File? then None else Some(EntriesOf(n.value.children))
  }

  /** A name a child can have. */
  predicate Plain(name: string) {
    name != "" && name != "." && name != ".." && '/' !in name
  }

  /** Children have plain names, no two of which the backend takes for the same. */
  ghost predicate WellFormed(f: Folding, n: Node) {
    n.Folder? ==>
      && (forall i :: 0 <= i < |n.children| ==> Plain(n.children[i].name) && WellFormed(f, n.children[i].node))
      && forall i, j :: 0 <= i < j < |n.children| ==> !f.Same(n.children[i].name, n.children[j].name)
  }

  /** Folding is an equivalence, and it leaves dots and slashes alone. */
  ghost predicate Lawful(f: Folding) {
    && (forall a :: f.Same(a, a))
    && (forall a, b :: f.Same(a, b) ==> f.Same(b, a))
    && (forall a, b, c :: f.Same(a, b) && f.Same(b, c) ==> f.Same(a, c))
    && forall a, b :: f.Same(a, b) && Plain(b) ==> Plain(a)
  }

  /** What the server is told when it looks for a pattern in a folder. */
  function AnswersOf(f: Folding, root: Node, dir: string, pattern: string): Answers {
    Answers(Stat(f, root, JoinPath(dir, pattern)), ReadDir(f, root, dir))
  }

  /** Equal but for the spelling of names. */
  ghost predicate Alike(a: seq<Entry>, b: seq<Entry>) {
    |a| == |b| && forall i :: 0 <= i < |a| ==> a[i].(name := b[i].name) == b[i]
  }

  /** One stat finds what listing and filtering would have. */
  ghost predicate Agrees(f: Folding, root: Node, dir: string, pattern: string) {
    var a := AnswersOf(f, root, dir, pattern);
    Alike(Found(pattern, a, f), Filtered(a.list.GetOr([]), pattern, f))
  }

  // ----- plain names -----

  lemma {:induction false} PartsOfPlain(name: string)
    requires '/' !in name
    ensures Parts(name) == [name]
  {
    if name != "" {
      PartsOfPlain(name[1..]);
      assert [name[0]] + name[1..] == name;
    }
  }

  lemma {:induction false} PartsOfJoin(dir: string, name: string)
    ensures Parts(dir + "/" + name) == Parts(dir) + Parts(name)
  {
    if dir == "" {
      assert dir + "/" + name == "/" + name;
      assert ("/" + name)[1..] == name;
    } else {
      assert (dir + "/" + name)[1..] == dir[1..] + "/" + name;
      PartsOfJoin(dir[1..], name);
    }
  }

  lemma {:induction false} CleanedOn(done: seq<string>, a: seq<string>, b: seq<string>)
    ensures Cleaned(done, a + b) == Cleaned(Cleaned(done, a), b)
    decreases |a|
  {
    if a == [] {
      assert a + b == b;
    } else {
      assert (a + b)[1..] == a[1..] + b;
      var next := if a[0] == "" || a[0] == "." then done
        else if a[0] == ".." then (if done == [] then [] else done[..|done| - 1])
        else done + [a[0]];
      CleanedOn(next, a[1..], b);
    }
  }

  /** A plain name is one step below the folder. */
  lemma PlainIsOneStep(dir: string, name: string)
    requires Plain(name)
    ensures Resolved(JoinPath(dir, name)) == Resolved(dir) + [name]
  {
    PartsOfPlain(name);
    assert [name][1..] == [];
    assert Cleaned(Resolved(dir), [name]) == Cleaned(Resolved(dir) + [name], []);
    if dir == "" {
      assert Parts("") == [""];
      assert [""][1..] == [];
      assert Resolved("") == [];
    } else {
      PartsOfJoin(dir, name);
      CleanedOn([], Parts(dir), [name]);
    }
  }

  lemma {:induction false} AtStep(f: Folding, n: Node, path: seq<string>, name: string)
    ensures At(f, n, path + [name]) ==
      (var d := At(f, n, path); if d.None? || d.value.File? then None else ChildOf(f, d.value.children, name))
    decreases |path|
  {
    if path == [] {
      assert path + [name] == [name];
      assert [name][1..] == [];
    } else {
      assert (path + [name])[1..] == path[1..] + [name];
      if n.Folder? {
        var child := ChildOf(f, n.children, path[0]);
        if child.Some? { AtStep(f, child.value, path[1..], name); }
      }
    }
  }

  lemma {:induction false} ChildIsOne(f: Folding, children: seq<Child>, name: string) returns (k: nat)
    ensures ChildOf(f, children, name).None? ==> forall i :: 0 <= i < |children| ==> !f.Same(name, children[i].name)
    ensures ChildOf(f, children, name).Some? ==>
      k < |children| && f.Same(name, children[k].name) && children[k].node == ChildOf(f, children, name).value
    decreases |children|
  {
    k := 0;
    if children != [] && !f.Same(name, children[0].name) {
      k := ChildIsOne(f, children[1..], name);
      k := k + 1;
    }
  }

  lemma {:induction false} AtIsWellFormed(f: Folding, n: Node, path: seq<string>)
    requires WellFormed(f, n) && At(f, n, path).Some?
    ensures WellFormed(f, At(f, n, path).value)
    decreases |path|
  {
    if path != [] {
      var k := ChildIsOne(f, n.children, path[0]);
      AtIsWellFormed(f, n.children[k].node, path[1..]);
    }
  }

  lemma BothSame(f: Folding, a: string, b: string, c: string)
    requires Lawful(f)
    ensures f.Same(a, b) && f.Same(a, c) ==> f.Same(b, c) && f.Same(c, b)
  {
  }

  /** In a folder, the child a plain name stands for is what filtering the listing by the name leaves. */
  lemma FolderAgrees(f: Folding, children: seq<Child>, time: u64, name: string)
    requires SingleName(name) && Lawful(f) && WellFormed(f, Folder(time, children))
    ensures var child, left := ChildOf(f, children, name), Filter(EntriesOf(children), name, f);
      if child.None? then left == [] else |left| == 1 && EntryOf(left[0].name, child.value) == left[0]
  {
    var n := Folder(time, children);
    var k := ChildIsOne(f, children, name);
    if ChildOf(f, children, name).None? {
      FilterNone(EntriesOf(children), name, f);
    } else {
      forall i | 0 <= i < |children| ensures f.Same(name, EntriesOf(children)[i].name) <==> i == k {
        BothSame(f, name, n.children[i].name, n.children[k].name);
      }
      FilterOne(EntriesOf(children), name, f, k);
    }
  }

  lemma PlainNameAgrees(f: Folding, root: Node, dir: string, pattern: string)
    requires SingleName(pattern) && Plain(pattern) && Lawful(f) && WellFormed(f, root)
    ensures Agrees(f, root, dir, pattern)
  {
    PlainIsOneStep(dir, pattern);
    AtStep(f, root, Resolved(dir), pattern);
    var d := At(f, root, Resolved(dir));
    if d.Some? && d.value.Folder? {
      AtIsWellFormed(f, root, Resolved(dir));
      FolderAgrees(f, d.value.children, d.value.time, pattern);
    }
  }

  /** What cleaning is: behind any path, a slash or "." stays there, ".." goes to its parent, or stays at the root,
      and a plain name goes one step down. */
  lemma PathsAreCleaned(p: string, name: string)
    requires Plain(name)
    ensures Resolved("") == [] && Resolved(p + "/") == Resolved(p) == Resolved(p + "/" + ".")
    ensures Resolved(p + "/" + "..") == if Resolved(p) == [] then [] else Resolved(p)[..|Resolved(p)| - 1]
    ensures Resolved(p + "/" + name) == Resolved(p) + [name]
  {
    assert p + "/" == p + "/" + "";
    PartsOfJoin(p, "");
    PartsOfJoin(p, ".");
    PartsOfJoin(p, "..");
    PartsOfJoin(p, name);
    PartsOfPlain(".");
    PartsOfPlain("..");
    PartsOfPlain(name);
    OneMorePart(Parts(p), "");
    OneMorePart(Parts(p), ".");
    OneMorePart(Parts(p), "..");
    OneMorePart(Parts(p), name);
    OneMorePart([], "");
  }

  lemma OneMorePart(parts: seq<string>, part: string)
    ensures var path := Cleaned([], parts);
      Cleaned([], parts + [part]) ==
        if part == "" || part == "." then path
        else if part == ".." then (if path == [] then [] else path[..|path| - 1])
        else path + [part]
  {
    CleanedOn([], parts, [part]);
    assert [part][1..] == [];
  }

  // ----- names that are not plain -----

  lemma {:induction false} PartsHaveNoSlash(p: string)
    ensures forall i :: 0 <= i < |Parts(p)| ==> '/' !in Parts(p)[i]
  {
    if p != "" { PartsHaveNoSlash(p[1..]); }
  }

  lemma {:induction false} CleanedIsPlain(done: seq<string>, parts: seq<string>)
    requires forall i :: 0 <= i < |done| ==> Plain(done[i])
    requires forall i :: 0 <= i < |parts| ==> '/' !in parts[i]
    ensures forall i :: 0 <= i < |Cleaned(done, parts)| ==> Plain(Cleaned(done, parts)[i])
    decreases |parts|
  {
    if parts != [] {
      var next := if parts[0] == "" || parts[0] == "." then done
        else if parts[0] == ".." then (if done == [] then [] else done[..|done| - 1])
        else done + [parts[0]];
      CleanedIsPlain(next, parts[1..]);
    }
  }

  /** Just the folders of a path, one inside the other. */
  function Nested(path: seq<string>): Node {
    Folder(0, if path == [] then [] else [Child(path[0], Nested(path[1..]))])
  }

  lemma {:induction false} NestedHolds(f: Folding, path: seq<string>)
    requires Lawful(f) && forall i :: 0 <= i < |path| ==> Plain(path[i])
    ensures WellFormed(f, Nested(path)) && At(f, Nested(path), path) == Some(Nested([]))
    decreases |path|
  {
    if path != [] {
      assert f.Same(path[0], path[0]);
      NestedHolds(f, path[1..]);
    }
  }

  /** A backend on which a pattern that is no plain name is answered for by Stat while no child is listed under
      it: the folders the pattern resolves to. For "." and ".." that is the folder itself, empty. */
  lemma OtherNamesDisagree(f: Folding, pattern: string) returns (root: Node)
    requires SingleName(pattern) && !Plain(pattern) && Lawful(f)
    ensures WellFormed(f, root) && !Agrees(f, root, "", pattern)
    ensures Found(pattern, AnswersOf(f, root, "", pattern), f) != []
    ensures Filtered(ReadDir(f, root, "").GetOr([]), pattern, f) == []
  {
    var path := Resolved(pattern);
    PartsHaveNoSlash(pattern);
    CleanedIsPlain([], Parts(pattern));
    root := Nested(path);
    NestedHolds(f, path);
    assert [""][1..] == [];
    assert Resolved("") == [];
    var listed := EntriesOf(root.children);
    forall i | 0 <= i < |listed| ensures !f.Same(pattern, listed[i].name) {
      assert Plain(listed[i].name);
    }
    FilterNone(listed, pattern, f);
  }

  /** A lookup by name finds what listing and filtering would have found, on every tree and in every folder,
      exactly when the name is one plain component of a path. */
  lemma LookupAgreesExactlyOnPlainNames(f: Folding, pattern: string)
    requires SingleName(pattern) && Lawful(f)
    ensures (forall root, dir | WellFormed(f, root) :: Agrees(f, root, dir, pattern))
      <==> pattern != "." && pattern != ".." && '/' !in pattern
  {
    if Plain(pattern) {
      forall root, dir | WellFormed(f, root) ensures Agrees(f, root, dir, pattern) {
        PlainNameAgrees(f, root, dir, pattern);
      }
    } else {
      var root := OtherNamesDisagree(f, pattern);
      assert !Agrees(f, root, "", pattern);
    }
  }
}
