/** The read-ahead window under concurrency: any number of threads on one filesystem, several of
    them possibly on one open file. A mutation is two steps, "the provider applies it" and "the
    generation is bumped"; a windowed read is "load the generation, fetch, install the window".
  */
module ReadAheadRace {
  import opened Bytes
  import opened ReadAhead

  type Handle = int
  type Thread = int

  /** A window and, for the proof, which version of the contents it was fetched from. */
  datatype Slot = Slot(path: string, win: Window, seen: nat, holder: Option<Thread>)

  /** Where a thread is. `from` is the generation current when its read began. */
  datatype PC =
    | Idle
    // a mutation; `drop` is the handle whose window WriteAt drops afterwards
    | Asked(m: Mutation, drop: Option<Handle>)
    | Applied(m: Mutation, v: nat, drop: Option<Handle>)
    | Dropping(h: Handle)
    // a read
    | Reading(h: Handle, off: int, len: nat, from: nat)
    | Locked(h: Handle, off: int, len: nat, from: nat)
    | Loaded(h: Handle, off: int, len: nat, from: nat, g: nat)
    | Fetched(h: Handle, off: int, len: nat, from: nat, g: nat, out: Outcome, v: nat)
    | Answered(h: Handle, off: int, len: nat, from: nat, out: Outcome, v: nat)

  /** `history` lists the contents the provider has had, oldest first. `floors[g]` is the latest of
      them that was due to a mutation already bumped when the generation became g. */
  datatype State = State(
    history: seq<World>, gen: nat, floors: seq<nat>,
    slots: map<Handle, Slot>, threads: map<Thread, PC>)
  {
    predicate Sane() { |history| > 0 && |floors| == gen + 1 }
    function Now(): World requires Sane() { history[|history| - 1] }
    function Latest(): nat requires Sane() { |history| - 1 }
  }

  datatype Config = Config(readAhead: int, apply: Provider)

  predicate Initial(s: State) {
    && |s.history| == 1 && s.gen == 0 && s.floors == [0]
    && (forall h :: h in s.slots ==> s.slots[h].win == NoWindow && s.slots[h].seen == 0 && s.slots[h].holder == None)
    && forall t :: t in s.threads ==> s.threads[t] == Idle
  }

  // ----- the steps of thread t -----

  function At(s: State, t: Thread, pc: PC): State { s.(threads := s.threads[t := pc]) }

  function Hold(s: State, h: Handle, holder: Option<Thread>): State
    requires h in s.slots
  {
    s.(slots := s.slots[h := s.slots[h].(holder := holder)])
  }

  ghost predicate AskStep(s: State, s': State, t: Thread)
    requires t in s.threads
  {
    s.threads[t] == Idle
    && exists m, h :: s' == At(s, t, Asked(m, h)) && (h.Some? ==> h.value in s.slots && m.Write?)
  }

  /** The provider refuses the mutation, or carries it out; only some kinds go on to bump. */
  predicate ApplyStep(c: Config, s: State, s': State, t: Thread)
    requires s.Sane() && t in s.threads
  {
    s.threads[t].Asked? &&
    var Asked(m, h) := s.threads[t];
    match c.apply(m, s.Now())
    case None => s' == At(s, t, Idle)
    case Some(w) =>
      if Bumps(m) then s' == At(s, t, Applied(m, |s.history|, h)).(history := s.history + [w])
      else s' == At(s, t, Idle).(history := s.history + [w])
  }

  predicate BumpStep(s: State, s': State, t: Thread)
    requires s.Sane() && t in s.threads
  {
    s.threads[t].Applied? &&
    var Applied(_, v, h) := s.threads[t];
    s' == At(s, t, if h.Some? then Dropping(h.value) else Idle)
      .(gen := s.gen + 1, floors := s.floors + [Max(s.floors[s.gen], v)])
  }

  /** WriteAt's last step: with the handle's mutex free, forget the window. */
  predicate DropStep(s: State, s': State, t: Thread)
    requires t in s.threads
  {
    s.threads[t].Dropping? &&
    var h := s.threads[t].h;
    h in s.slots && s.slots[h].holder == None
    && s' == At(s, t, Idle).(slots := s.slots[h := s.slots[h].(win := NoWindow)])
  }

  ghost predicate BeginStep(s: State, s': State, t: Thread)
    requires t in s.threads
  {
    s.threads[t] == Idle
    && exists h, off, len: nat :: h in s.slots && s' == At(s, t, Reading(h, off, len, s.gen))
  }

  /** A read as long as the window goes straight to the provider. */
  predicate DirectStep(c: Config, s: State, s': State, t: Thread)
    requires s.Sane() && t in s.threads
  {
    s.threads[t].Reading? &&
    var Reading(h, off, len, from) := s.threads[t];
    h in s.slots && !Windowed(c.readAhead, len)
    && s' == At(s, t, Answered(h, off, len, from, Direct(s.Now(), s.slots[h].path, off, len), s.Latest()))
  }

  predicate LockStep(c: Config, s: State, s': State, t: Thread)
    requires t in s.threads
  {
    s.threads[t].Reading? &&
    var Reading(h, off, len, from) := s.threads[t];
    h in s.slots && Windowed(c.readAhead, len) && s.slots[h].holder == None
    && s' == Hold(At(s, t, Locked(h, off, len, from)), h, Some(t))
  }

  predicate LoadStep(s: State, s': State, t: Thread)
    requires t in s.threads
  {
    s.threads[t].Locked? &&
    var Locked(h, off, len, from) := s.threads[t];
    s' == At(s, t, Loaded(h, off, len, from, s.gen))
  }

  predicate Hits(win: Window, g: nat, off: int, len: nat) {
    Covers(win, g, off) && (off - win.off + len <= |win.data| || win.eof)
  }

  predicate HitStep(s: State, s': State, t: Thread)
    requires t in s.threads
  {
    s.threads[t].Loaded? &&
    var Loaded(h, off, len, from, g) := s.threads[t];
    h in s.slots && Hits(s.slots[h].win, g, off, len) &&
    var win := s.slots[h].win;
    s' == Hold(At(s, t, Answered(h, off, len, from, Cut(win.data[off - win.off..], len), s.slots[h].seen)), h, None)
  }

  predicate FetchStep(c: Config, s: State, s': State, t: Thread)
    requires s.Sane() && t in s.threads
  {
    s.threads[t].Loaded? &&
    var Loaded(h, off, len, from, g) := s.threads[t];
    h in s.slots && !Hits(s.slots[h].win, g, off, len) && c.readAhead >= 0
    && s' == At(s, t, Fetched(h, off, len, from, g, Direct(s.Now(), s.slots[h].path, off, c.readAhead), s.Latest()))
  }

  predicate InstallStep(s: State, s': State, t: Thread)
    requires t in s.threads
  {
    s.threads[t].Fetched? &&
    var Fetched(h, off, len, from, g, out, v) := s.threads[t];
    h in s.slots &&
    match out
    case Failed => s' == Hold(At(s, t, Answered(h, off, len, from, Failed, v)), h, None)
    case Got(data, eof) =>
      s' == Hold(At(s, t, Answered(h, off, len, from, Cut(data, len), v)), h, None)
        .(slots := s.slots[h := s.slots[h].(win := Held(data, off, g, eof), seen := v, holder := None)])
  }

  predicate ReturnStep(s: State, s': State, t: Thread)
    requires t in s.threads
  {
    s.threads[t].Answered? && s' == At(s, t, Idle)
  }

  ghost predicate MutationStep(c: Config, s: State, s': State, t: Thread)
    requires s.Sane() && t in s.threads
  {
    AskStep(s, s', t) || ApplyStep(c, s, s', t) || BumpStep(s, s', t) || DropStep(s, s', t)
  }

  ghost predicate ReadingStep(c: Config, s: State, s': State, t: Thread)
    requires s.Sane() && t in s.threads
  {
    || BeginStep(s, s', t) || DirectStep(c, s, s', t) || LockStep(c, s, s', t) || LoadStep(s, s', t)
    || HitStep(s, s', t) || FetchStep(c, s, s', t) || InstallStep(s, s', t) || ReturnStep(s, s', t)
  }

  ghost predicate StepOf(c: Config, s: State, s': State, t: Thread)
    requires s.Sane() && t in s.threads
  {
    MutationStep(c, s, s', t) || ReadingStep(c, s, s', t)
  }

  /** A new open file on some path. */
  ghost predicate OpenStep(s: State, s': State) {
    exists h, path :: h !in s.slots && s' == s.(slots := s.slots[h := Slot(path, NoWindow, 0, None)])
  }

  ghost predicate Next(c: Config, s: State, s': State) {
    s.Sane() && (OpenStep(s, s') || exists t :: t in s.threads && StepOf(c, s, s', t))
  }

  // ----- the invariant -----

  ghost predicate FloorsRise(s: State)
    requires s.Sane()
  {
    && (forall i, j :: 0 <= i <= j <= s.gen ==> s.floors[i] <= s.floors[j])
    && forall i :: 0 <= i <= s.gen ==> s.floors[i] < |s.history|
  }

  /** A window tagged g was fetched from contents no older than any mutation bumped by generation g.
      Mutations applied but not yet bumped may be missing from it. */
  ghost predicate SlotOk(c: Config, s: State, slot: Slot)
    requires s.Sane()
  {
    slot.win.Held? ==>
      && slot.win.gen <= s.gen
      && s.floors[slot.win.gen] <= slot.seen < |s.history|
      && Fresh(s.history[slot.seen], slot.path, c.readAhead, slot.win)
  }

  ghost predicate PcOk(c: Config, s: State, pc: PC)
    requires s.Sane()
  {
    match pc
    case Idle => true
    case Asked(m, h) => h.Some? ==> h.value in s.slots
    case Applied(_, v, h) => v < |s.history| && (h.Some? ==> h.value in s.slots)
    case Dropping(h) => h in s.slots
    case Reading(h, _, _, from) => h in s.slots && from <= s.gen
    case Locked(h, _, len, from) => h in s.slots && from <= s.gen && Windowed(c.readAhead, len)
    case Loaded(h, _, len, from, g) => h in s.slots && from <= g <= s.gen && Windowed(c.readAhead, len)
    case Fetched(h, off, len, from, g, out, v) =>
      && h in s.slots && from <= g <= s.gen && Windowed(c.readAhead, len)
      && s.floors[g] <= v < |s.history|
      && out == Direct(s.history[v], s.slots[h].path, off, c.readAhead)
    case Answered(h, off, len, from, out, v) =>
      && h in s.slots && from <= s.gen
      && s.floors[from] <= v < |s.history|
      && out == Direct(s.history[v], s.slots[h].path, off, len)
  }

  /** Who holds a handle's mutex is exactly the thread inside the windowed part of ReadAt on it. */
  predicate Inside(pc: PC, h: Handle) {
    (pc.Locked? || pc.Loaded? || pc.Fetched?) && pc.h == h
  }

  ghost predicate MutexOk(s: State) {
    && (forall h :: h in s.slots && s.slots[h].holder.Some? ==>
      s.slots[h].holder.value in s.threads && Inside(s.threads[s.slots[h].holder.value], h))
    && forall t, h :: t in s.threads && h in s.slots && Inside(s.threads[t], h) ==> s.slots[h].holder == Some(t)
  }

  ghost predicate Inv(c: Config, s: State) {
    && s.Sane() && FloorsRise(s) && MutexOk(s)
    && (forall h :: h in s.slots ==> SlotOk(c, s, s.slots[h]))
    && forall t :: t in s.threads ==> PcOk(c, s, s.threads[t])
  }

  /** Cutting a fresh window is what a direct request to the same contents would bring. */
  lemma CutOfWindow(w: World, path: string, readAhead: int, win: Window, off: int, len: nat)
    requires 0 < readAhead <= CAP && len < readAhead && win.Held? && Fresh(w, path, readAhead, win)
    requires Hits(win, win.gen, off, len) || off == win.off
    ensures Cut(win.data[off - win.off..], len) == Direct(w, path, off, len)
  {
    WindowAnswersLikeProvider(w, path, readAhead, win.gen, win, off, len);
    if !Hits(win, win.gen, off, len) {
      WindowAnswersLikeProvider(w, path, readAhead, win.gen, NoWindow, off, len);
    }
  }

  /** What every step of thread t leaves alone. */
  ghost predicate Frame(s: State, s': State, t: Thread) {
    && Grows(s, s')
    && s'.threads.Keys == s.threads.Keys
    && forall u :: u in s.threads && u != t ==> s'.threads[u] == s.threads[u]
  }

  ghost predicate Grows(s: State, s': State) {
    && s.Sane() && s'.Sane()
    && s.history <= s'.history && s.floors <= s'.floors
    && s.slots.Keys <= s'.slots.Keys
    && forall h :: h in s.slots ==> s'.slots[h].path == s.slots[h].path
  }

  lemma MutationFrame(c: Config, s: State, s': State, t: Thread)
    requires s.Sane() && t in s.threads && MutationStep(c, s, s', t)
    requires PcOk(c, s, s.threads[t])
    ensures Frame(s, s', t)
  {
  }

  /** A read changes neither the contents nor the generation. */
  lemma ReadingFrame(c: Config, s: State, s': State, t: Thread)
    requires s.Sane() && t in s.threads && ReadingStep(c, s, s', t)
    requires PcOk(c, s, s.threads[t])
    ensures Frame(s, s', t) && s'.history == s.history && s'.floors == s.floors && s'.gen == s.gen
  {
  }

  lemma StepFrame(c: Config, s: State, s': State, t: Thread)
    requires s.Sane() && t in s.threads && StepOf(c, s, s', t)
    requires PcOk(c, s, s.threads[t])
    ensures Frame(s, s', t)
  {
    if MutationStep(c, s, s', t) {
      MutationFrame(c, s, s', t);
    } else {
      ReadingFrame(c, s, s', t);
    }
  }

  lemma BumpFloors(c: Config, s: State, s': State, t: Thread)
    requires s.Sane() && t in s.threads && BumpStep(s, s', t)
    requires PcOk(c, s, s.threads[t]) && FloorsRise(s)
    ensures s'.Sane() && FloorsRise(s')
  {
    forall i, j | 0 <= i <= j <= s'.gen ensures s'.floors[i] <= s'.floors[j] {
      if j == s'.gen { assert i <= s.gen ==> s.floors[i] <= s.floors[s.gen]; }
    }
  }

  lemma StepFloors(c: Config, s: State, s': State, t: Thread)
    requires s.Sane() && t in s.threads && StepOf(c, s, s', t)
    requires PcOk(c, s, s.threads[t]) && FloorsRise(s)
    ensures s'.Sane() && FloorsRise(s')
  {
    if BumpStep(s, s', t) {
      BumpFloors(c, s, s', t);
    } else if MutationStep(c, s, s', t) {
      assert s'.floors == s.floors && s.history <= s'.history;
    } else {
      ReadingFrame(c, s, s', t);
    }
  }

  lemma LockKeepsMutex(c: Config, s: State, s': State, t: Thread)
    requires s.Sane() && t in s.threads && LockStep(c, s, s', t) && MutexOk(s)
    ensures MutexOk(s')
  {
    var h := s.threads[t].h;
    forall g | g in s.slots && g != h ensures s'.slots[g] == s.slots[g] {}
  }

  lemma ReleaseKeepsMutex(c: Config, s: State, s': State, t: Thread)
    requires s.Sane() && t in s.threads && (HitStep(s, s', t) || InstallStep(s, s', t)) && MutexOk(s)
    ensures MutexOk(s')
  {
    var h := s.threads[t].h;
    assert Inside(s.threads[t], h);
    forall g | g in s.slots && g != h ensures s'.slots[g] == s.slots[g] {}
  }

  /** Every other step leaves the mutexes alone and does not enter or leave the locked part. */
  lemma OtherStepsMutex(c: Config, s: State, s': State, t: Thread)
    requires s.Sane() && t in s.threads && StepOf(c, s, s', t)
    requires !LockStep(c, s, s', t) && !HitStep(s, s', t) && !InstallStep(s, s', t)
    ensures s'.slots.Keys == s.slots.Keys && forall h :: h in s.slots ==> s'.slots[h].holder == s.slots[h].holder
    ensures t in s'.threads && forall h :: Inside(s'.threads[t], h) <==> Inside(s.threads[t], h)
  {
  }

  lemma StepMutex(c: Config, s: State, s': State, t: Thread)
    requires s.Sane() && t in s.threads && StepOf(c, s, s', t)
    requires PcOk(c, s, s.threads[t]) && MutexOk(s)
    ensures MutexOk(s')
  {
    if LockStep(c, s, s', t) {
      LockKeepsMutex(c, s, s', t);
    } else if HitStep(s, s', t) || InstallStep(s, s', t) {
      ReleaseKeepsMutex(c, s, s', t);
    } else {
      StepFrame(c, s, s', t);
      OtherStepsMutex(c, s, s', t);
    }
  }

  lemma GrowthKeepsSlot(c: Config, s: State, s': State, slot: Slot)
    requires Grows(s, s') && SlotOk(c, s, slot)
    ensures SlotOk(c, s', slot)
  {
  }

  /** The one place a window is installed: its generation was loaded before its contents were read. */
  lemma StepSlots(c: Config, s: State, s': State, t: Thread)
    requires s.Sane() && t in s.threads && StepOf(c, s, s', t)
    requires PcOk(c, s, s.threads[t]) && FloorsRise(s)
    requires forall h :: h in s.slots ==> SlotOk(c, s, s.slots[h])
    ensures s'.Sane() && forall h :: h in s'.slots ==> SlotOk(c, s', s'.slots[h])
  {
    StepFrame(c, s, s', t);
    forall h | h in s'.slots ensures SlotOk(c, s', s'.slots[h]) {
      assert h in s.slots;
      GrowthKeepsSlot(c, s, s', s.slots[h]);
      if InstallStep(s, s', t) && s.threads[t].h == h && s.threads[t].out.Got? {
        assert s'.slots[h].win == Held(s.threads[t].out.data, s.threads[t].off, s.threads[t].g, s.threads[t].out.eof);
      } else {
        assert s'.slots[h].win == s.slots[h].win || s'.slots[h].win == NoWindow;
      }
    }
  }

  lemma GrowthKeepsPc(c: Config, s: State, s': State, pc: PC)
    requires Grows(s, s') && PcOk(c, s, pc)
    ensures PcOk(c, s', pc)
  {
  }

  lemma HitIsDirect(c: Config, s: State, s': State, t: Thread)
    requires c.readAhead <= CAP && Inv(c, s) && t in s.threads && HitStep(s, s', t)
    ensures s'.Sane() && PcOk(c, s', s'.threads[t])
  {
    var Loaded(h, off, len, from, g) := s.threads[t];
    assert PcOk(c, s, s.threads[t]) && SlotOk(c, s, s.slots[h]);
    CutOfWindow(s.history[s.slots[h].seen], s.slots[h].path, c.readAhead, s.slots[h].win, off, len);
  }

  lemma InstallIsDirect(c: Config, s: State, s': State, t: Thread)
    requires c.readAhead <= CAP && Inv(c, s) && t in s.threads && InstallStep(s, s', t)
    ensures s'.Sane() && PcOk(c, s', s'.threads[t])
  {
    var Fetched(h, off, len, from, g, out, v) := s.threads[t];
    assert PcOk(c, s, s.threads[t]);
    if out.Got? {
      var win := Held(out.data, off, g, out.eof);
      CutOfWindow(s.history[v], s.slots[h].path, c.readAhead, win, off, len);
      assert win.data[off - win.off..] == win.data;
    }
  }

  lemma StepPc(c: Config, s: State, s': State, t: Thread)
    requires c.readAhead <= CAP && Inv(c, s) && t in s.threads && StepOf(c, s, s', t)
    ensures s'.Sane() && t in s'.threads && PcOk(c, s', s'.threads[t])
  {
    assert PcOk(c, s, s.threads[t]);
    if HitStep(s, s', t) {
      HitIsDirect(c, s, s', t);
    } else if InstallStep(s, s', t) {
      InstallIsDirect(c, s, s', t);
    }
  }

  lemma StepKeepsInv(c: Config, s: State, s': State, t: Thread)
    requires c.readAhead <= CAP && Inv(c, s) && t in s.threads && StepOf(c, s, s', t)
    ensures Inv(c, s') && Frame(s, s', t)
  {
    assert PcOk(c, s, s.threads[t]);
    StepFrame(c, s, s', t);
    StepFloors(c, s, s', t);
    StepMutex(c, s, s', t);
    StepSlots(c, s, s', t);
    StepPc(c, s, s', t);
    forall u | u in s'.threads ensures PcOk(c, s', s'.threads[u]) {
      if u != t { GrowthKeepsPc(c, s, s', s.threads[u]); }
    }
  }

  lemma OpenKeepsInv(c: Config, s: State, s': State)
    requires Inv(c, s) && OpenStep(s, s')
    ensures Inv(c, s') && Grows(s, s') && s'.threads == s.threads
  {
    forall u | u in s.threads ensures PcOk(c, s', s.threads[u]) {
      assert PcOk(c, s, s.threads[u]);
    }
  }

  lemma NextKeepsInv(c: Config, s: State, s': State)
    requires c.readAhead <= CAP && Inv(c, s) && Next(c, s, s')
    ensures Inv(c, s') && Grows(s, s')
  {
    if OpenStep(s, s') {
      OpenKeepsInv(c, s, s');
    } else {
      var t :| t in s.threads && StepOf(c, s, s', t);
      StepKeepsInv(c, s, s', t);
    }
  }

  // ----- runs -----

  ghost predicate Run(c: Config, b: seq<State>) {
    |b| > 0 && Initial(b[0]) && forall i: nat :: i < |b| - 1 ==> StepAt(c, b, i)
  }

  ghost predicate StepAt(c: Config, b: seq<State>, i: nat)
    requires i < |b| - 1
  {
    Next(c, b[i], b[i + 1])
  }

  lemma {:induction false} InvHolds(c: Config, b: seq<State>, i: nat)
    requires c.readAhead <= CAP && Run(c, b) && i < |b|
    ensures Inv(c, b[i])
  {
    if i > 0 {
      InvHolds(c, b, i - 1);
      assert StepAt(c, b, i - 1);
      NextKeepsInv(c, b[i - 1], b[i]);
    }
  }

  /** The generation and its floors only grow. */
  lemma GrowsTransitive(s: State, s': State, s'': State)
    requires Grows(s, s') && Grows(s', s'')
    ensures Grows(s, s'')
  {
  }

  lemma RunGrows(c: Config, b: seq<State>, i: nat)
    requires c.readAhead <= CAP && Run(c, b) && i + 1 < |b|
    ensures Grows(b[i], b[i + 1])
  {
    InvHolds(c, b, i);
    assert StepAt(c, b, i);
    NextKeepsInv(c, b[i], b[i + 1]);
  }

  lemma {:induction false} FloorsPersist(c: Config, b: seq<State>, i: nat, j: nat)
    requires c.readAhead <= CAP && Run(c, b) && i < j < |b|
    ensures Grows(b[i], b[j])
    decreases j - i
  {
    RunGrows(c, b, j - 1);
    if i + 1 < j {
      FloorsPersist(c, b, i, j - 1);
      GrowsTransitive(b[i], b[j - 1], b[j]);
    }
  }

  /** Thread t is in one and the same read from state j to state k. */
  predicate InRead(pc: PC) {
    pc.Reading? || pc.Locked? || pc.Loaded? || pc.Fetched? || pc.Answered?
  }

  ghost predicate OneRead(b: seq<State>, j: nat, k: nat, t: Thread)
    requires j <= k < |b|
  {
    forall i :: j <= i <= k ==> t in b[i].threads && InRead(b[i].threads[t])
  }

  lemma ReadStepKeepsFrom(c: Config, s: State, s': State, t: Thread)
    requires s.Sane() && t in s.threads && t in s'.threads && StepOf(c, s, s', t)
    requires InRead(s.threads[t]) && InRead(s'.threads[t])
    ensures s'.threads[t].from == s.threads[t].from
  {
  }

  /** One step of anyone leaves the beginning of a read in progress as recorded. */
  lemma NextKeepsFrom(c: Config, s: State, s': State, t: Thread)
    requires c.readAhead <= CAP && Inv(c, s) && Next(c, s, s')
    requires t in s.threads && t in s'.threads && InRead(s.threads[t]) && InRead(s'.threads[t])
    ensures s'.threads[t].from == s.threads[t].from
  {
    if OpenStep(s, s') {
      OpenKeepsInv(c, s, s');
    } else {
      var u :| u in s.threads && StepOf(c, s, s', u);
      if u == t {
        ReadStepKeepsFrom(c, s, s', t);
      } else {
        StepFrame(c, s, s', u);
      }
    }
  }

  lemma RunKeepsFrom(c: Config, b: seq<State>, k: nat, t: Thread)
    requires c.readAhead <= CAP && Run(c, b) && k + 1 < |b|
    requires t in b[k].threads && t in b[k + 1].threads && InRead(b[k].threads[t]) && InRead(b[k + 1].threads[t])
    ensures b[k + 1].threads[t].from == b[k].threads[t].from
  {
    InvHolds(c, b, k);
    assert StepAt(c, b, k);
    NextKeepsFrom(c, b[k], b[k + 1], t);
  }

  lemma {:induction false} FromIsKept(c: Config, b: seq<State>, j: nat, k: nat, t: Thread)
    requires c.readAhead <= CAP && Run(c, b) && j <= k < |b| && OneRead(b, j, k, t)
    ensures b[k].threads[t].from == b[j].threads[t].from
    decreases k - j
  {
    if j < k {
      FromIsKept(c, b, j, k - 1, t);
      assert InRead(b[k - 1].threads[t]) && InRead(b[k].threads[t]);
      RunKeepsFrom(c, b, k - 1, t);
    }
  }

  lemma FloorsRiseInRun(c: Config, b: seq<State>, i: nat)
    requires c.readAhead <= CAP && Run(c, b) && i < |b|
    ensures b[i].Sane() && FloorsRise(b[i])
  {
    InvHolds(c, b, i);
  }

  lemma PcOkInRun(c: Config, b: seq<State>, i: nat, t: Thread)
    requires c.readAhead <= CAP && Run(c, b) && i < |b| && t in b[i].threads
    ensures b[i].Sane() && PcOk(c, b[i], b[i].threads[t])
  {
    InvHolds(c, b, i);
  }

  /** Freshness. If a mutation that produced version v has been bumped in state i, and a read begins
      no earlier than that (in the step after state j), then what the read returns is the provider's
      own answer from contents at least as recent as v: never bytes older than the mutation. */
  lemma ReadsAreNeverStale(c: Config, b: seq<State>, i: nat, j: nat, k: nat, w: Thread, t: Thread)
    returns (v': nat)
    requires c.readAhead <= CAP && Run(c, b)
    requires i < j < k < |b|
    requires w in b[i].threads && b[i].Sane() && BumpStep(b[i], b[i + 1], w)
    requires t in b[j].threads && BeginStep(b[j], b[j + 1], t)
    requires OneRead(b, j + 1, k, t) && b[k].threads[t].Answered?
    ensures b[i].threads[w].v <= v' < |b[k].history|
    ensures var Answered(h, off, len, _, out, _) := b[k].threads[t];
      h in b[k].slots && out == Direct(b[k].history[v'], b[k].slots[h].path, off, len)
  {
    var v := b[i].threads[w].v;
    var g := b[i].gen + 1;
    FromIsKept(c, b, j + 1, k, t);
    var from := b[k].threads[t].from;
    assert from == b[j].gen;
    FloorsPersist(c, b, i, k);
    if i + 1 < j { FloorsPersist(c, b, i + 1, j); }
    FloorsPersist(c, b, i + 1, k);
    assert v <= b[i + 1].floors[g] == b[k].floors[g];
    FloorsPersist(c, b, j, k);
    assert g <= from;
    FloorsRiseInRun(c, b, k);
    PcOkInRun(c, b, k, t);
    v' := b[k].threads[t].v;
  }

  /** No deadlock on a handle's mutex: whoever holds it has a step of its own that needs no lock. */
  lemma HolderCanMove(c: Config, s: State, h: Handle)
    requires Inv(c, s) && h in s.slots && s.slots[h].holder.Some?
    ensures var t := s.slots[h].holder.value;
      t in s.threads && exists s' :: LoadStep(s, s', t) || HitStep(s, s', t) || FetchStep(c, s, s', t) || InstallStep(s, s', t)
  {
    var t := s.slots[h].holder.value;
    assert PcOk(c, s, s.threads[t]);
    match s.threads[t]
    case Locked(_, off, len, from) =>
      assert LoadStep(s, At(s, t, Loaded(h, off, len, from, s.gen)), t);
    case Loaded(_, off, len, from, g) =>
      var win := s.slots[h].win;
      if Hits(win, g, off, len) {
        assert HitStep(s, Hold(At(s, t, Answered(h, off, len, from, Cut(win.data[off - win.off..], len), s.slots[h].seen)), h, None), t);
      } else {
        assert FetchStep(c, s, At(s, t, Fetched(h, off, len, from, g, Direct(s.Now(), s.slots[h].path, off, c.readAhead), s.Latest())), t);
      }
    case Fetched(_, off, len, from, g, out, v) =>
      match out {
        case Failed =>
          assert InstallStep(s, Hold(At(s, t, Answered(h, off, len, from, Failed, v)), h, None), t);
        case Got(data, eof) =>
          assert InstallStep(s, Hold(At(s, t, Answered(h, off, len, from, Cut(data, len), v)), h, None)
            .(slots := s.slots[h := s.slots[h].(win := Held(data, off, g, eof), seen := v, holder := None)]), t);
      }
  }

  /** And so no thread is ever stuck: it can go on unless it waits for a mutex that another holds, which by
      HolderCanMove can go on itself. */
  lemma EveryThreadCanMove(c: Config, s: State, t: Thread) returns (s': State)
    requires Inv(c, s) && t in s.threads
    requires s.threads[t].Dropping? ==> s.slots[s.threads[t].h].holder.None?
    requires s.threads[t].Reading? && 0 < c.readAhead && s.threads[t].len < c.readAhead ==>
      s.slots[s.threads[t].h].holder.None?
    ensures StepOf(c, s, s', t)
  {
    assert PcOk(c, s, s.threads[t]);
    match s.threads[t]
    case Idle =>
      s' := At(s, t, Asked(Mkdir(""), None));
      assert AskStep(s, s', t);
    case Asked(m, h) =>
      s' := match c.apply(m, s.Now())
        case None => At(s, t, Idle)
        case Some(w) => At(s, t, if Bumps(m) then Applied(m, |s.history|, h) else Idle).(history := s.history + [w]);
      assert ApplyStep(c, s, s', t);
    case Applied(_, v, h) =>
      s' := At(s, t, if h.Some? then Dropping(h.value) else Idle).(gen := s.gen + 1, floors := s.floors + [Max(s.floors[s.gen], v)]);
      assert BumpStep(s, s', t);
    case Dropping(h) =>
      s' := At(s, t, Idle).(slots := s.slots[h := s.slots[h].(win := NoWindow)]);
      assert DropStep(s, s', t);
    case Reading(h, off, len, from) =>
      if Windowed(c.readAhead, len) {
        s' := Hold(At(s, t, Locked(h, off, len, from)), h, Some(t));
        assert LockStep(c, s, s', t);
      } else {
        s' := At(s, t, Answered(h, off, len, from, Direct(s.Now(), s.slots[h].path, off, len), s.Latest()));
        assert DirectStep(c, s, s', t);
      }
    case Answered(_, _, _, _, _, _) =>
      s' := At(s, t, Idle);
      assert ReturnStep(s, s', t);
    case _ =>
      var h := s.threads[t].h;
      assert Inside(s.threads[t], h);
      HolderCanMove(c, s, h);
      s' :| LoadStep(s, s', t) || HitStep(s, s', t) || FetchStep(c, s, s', t) || InstallStep(s, s', t);
  }

  /** An idle thread can begin a read of any open file, anywhere. */
  lemma AnyReadCanBegin(s: State, t: Thread, h: Handle, off: int, len: nat)
    requires s.Sane() && t in s.threads && s.threads[t].Idle? && h in s.slots
    ensures BeginStep(s, At(s, t, Reading(h, off, len, s.gen)), t)
  {
  }

  /** And any mutation can be asked for. */
  lemma AnyMutationCanBegin(s: State, t: Thread, m: Mutation)
    requires s.Sane() && t in s.threads && s.threads[t].Idle?
    ensures AskStep(s, At(s, t, Asked(m, None)), t)
  {
  }
}
