/** Accepting, connections leaving, and any number of Shutdown calls, interleaved (Server.Serve and
    Server.Shutdown in internal/smb/server.go).
  */
module Shutdown {
  import opened Bytes

  /** Connections and Shutdown calls are numbered in the order in which they come. */
  datatype Thread = Acceptor | Conn(c: nat) | Caller(k: nat)

  datatype Accepting =
    | Listening
    | Accepted                  // a connection, which is the last of the list, waits for the lock
    | Checking | Adding | Releasing   // with the lock
    | Spawning | Refusing
    | Returned

  datatype Phase =
    | Fresh                     // accepted, not in conns
    | Registered | Counted      // in conns; counted by the wait group
    | Serving
    | Leaving                   // serve has returned
    | Removing | Removed        // with the lock; out of conns
    | Unlocked | Over           // no longer counted
    | Refused
  {
    predicate InTable() { Registered? || Counted? || Serving? || Leaving? || Removing? }
    predicate IsCounted() { Counted? || Serving? || HasLeft() }
    /** has left serve but is still counted */
    predicate HasLeft() { Leaving? || Removing? || Removed? || Unlocked? }
  }

  datatype Call =
    | Calling
    | Holding | Snapping | Unlocking(todo: set<nat>)   // with the lock
    | Unlistening(todo: set<nat>) | Hanging(todo: set<nat>) | Waiting
    | Ended | Already           // returned, from the first call or from a later one
  {
    /** past the point where the first caller found `closing` open */
    predicate First() { Snapping? || Unlocking? || Unlistening? || Hanging? || Waiting? || Ended? }
  }

  datatype State = State(
    mu: Option<Thread>, closing: bool, conns: set<nat>, wg: int, listening: bool, acceptor: Accepting,
    servers: seq<Phase>, calls: seq<Call>,
    shut: set<nat>,                // connections whose sockets have been closed
    first: Option<nat>,            // the call that found closing open
    snapshot: Option<set<nat>>)    // what it found in conns

  const START := State(None, false, {}, 0, true, Listening, [], [], {}, None, None)

  datatype Event =
    | Accept | AcceptFails | LockToRegister | Refuse | HangUp | Register | Count | Release | Spawn
    | Leave(c: nat) | LockToRemove(c: nat) | Remove(c: nat) | Unlock(c: nat) | Done(c: nat)
    | NewCall | Lock(k: nat) | FindClosed(k: nat) | Close(k: nat) | Snap(k: nat) | UnlockCall(k: nat)
    | Unlisten(k: nat) | CloseSocket(k: nat, c: nat) | AllClosed(k: nat) | Wait(k: nat)
  {
    function By(): Thread {
      match this
      case Leave(c) => Conn(c) case LockToRemove(c) => Conn(c) case Remove(c) => Conn(c)
      case Unlock(c) => Conn(c) case Done(c) => Conn(c)
      case Lock(k) => Caller(k) case FindClosed(k) => Caller(k) case Close(k) => Caller(k) case Snap(k) => Caller(k)
      case UnlockCall(k) => Caller(k) case Unlisten(k) => Caller(k) case CloseSocket(k, _) => Caller(k)
      case AllClosed(k) => Caller(k) case Wait(k) => Caller(k)
      case _ => Acceptor
    }
  }

  predicate ConnIn(s: State, c: nat, p: Phase) { c < |s.servers| && s.servers[c] == p }

  predicate CallIn(s: State, k: nat, p: Call) { k < |s.calls| && s.calls[k] == p }

  predicate Enabled(s: State, e: Event) {
    match e
    case Accept => s.acceptor.Listening? && s.listening
    case AcceptFails => s.acceptor.Listening?
    case LockToRegister => s.acceptor.Accepted? && s.mu.None?
    case Refuse => s.acceptor.Checking? && s.closing
    case HangUp => s.acceptor.Refusing? && |s.servers| > 0
    case Register => s.acceptor.Checking? && !s.closing && |s.servers| > 0
    case Count => s.acceptor.Adding? && |s.servers| > 0
    case Release => s.acceptor.Releasing?
    case Spawn => s.acceptor.Spawning? && |s.servers| > 0
    case Leave(c) => ConnIn(s, c, Serving)
    case LockToRemove(c) => ConnIn(s, c, Leaving) && s.mu.None?
    case Remove(c) => ConnIn(s, c, Removing)
    case Unlock(c) => ConnIn(s, c, Removed)
    case Done(c) => ConnIn(s, c, Unlocked)
    case NewCall => true
    case Lock(k) => CallIn(s, k, Calling) && s.mu.None?
    case FindClosed(k) => CallIn(s, k, Holding) && s.closing
    case Close(k) => CallIn(s, k, Holding) && !s.closing
    case Snap(k) => CallIn(s, k, Snapping)
    case UnlockCall(k) => k < |s.calls| && s.calls[k].Unlocking?
    case Unlisten(k) => k < |s.calls| && s.calls[k].Unlistening?
    case CloseSocket(k, c) => k < |s.calls| && s.calls[k].Hanging? && c in s.calls[k].todo
    case AllClosed(k) => CallIn(s, k, Hanging({}))
    case Wait(k) => CallIn(s, k, Waiting) && s.wg == 0
  }

  function WithConn(s: State, c: nat, p: Phase): State
    requires c < |s.servers|
  {
    s.(servers := s.servers[c := p])
  }

  function WithCall(s: State, k: nat, p: Call): State
    requires k < |s.calls|
  {
    s.(calls := s.calls[k := p])
  }

  function After(s: State, e: Event): State
    requires Enabled(s, e)
  {
    var last := |s.servers| - 1;
    match e
    case Accept => s.(acceptor := Accepted, servers := s.servers + [Fresh])
    case AcceptFails => if s.closing then s.(acceptor := Returned) else s
    case LockToRegister => s.(acceptor := Checking, mu := Some(Acceptor))
    case Refuse => s.(acceptor := Refusing, mu := None)
    case HangUp => WithConn(s, last, Refused).(acceptor := Returned, shut := s.shut + {last})
    case Register => WithConn(s, last, Registered).(acceptor := Adding, conns := s.conns + {last})
    case Count => WithConn(s, last, Counted).(acceptor := Releasing, wg := s.wg + 1)
    case Release => s.(acceptor := Spawning, mu := None)
    case Spawn => WithConn(s, last, Serving).(acceptor := Listening)
    case Leave(c) => WithConn(s, c, Leaving).(shut := s.shut + {c})
    case LockToRemove(c) => WithConn(s, c, Removing).(mu := Some(Conn(c)))
    case Remove(c) => WithConn(s, c, Removed).(conns := s.conns - {c})
    case Unlock(c) => WithConn(s, c, Unlocked).(mu := None)
    case Done(c) => WithConn(s, c, Over).(wg := s.wg - 1)
    case NewCall => s.(calls := s.calls + [Calling])
    case Lock(k) => WithCall(s, k, Holding).(mu := Some(Caller(k)))
    case FindClosed(k) => WithCall(s, k, Already).(mu := None)
    case Close(k) => WithCall(s, k, Snapping).(closing := true, first := Some(k))
    case Snap(k) => WithCall(s, k, Unlocking(s.conns)).(snapshot := Some(s.conns))
    case UnlockCall(k) => WithCall(s, k, Unlistening(s.calls[k].todo)).(mu := None)
    case Unlisten(k) => WithCall(s, k, Hanging(s.calls[k].todo)).(listening := false)
    case CloseSocket(k, c) => WithCall(s, k, Hanging(s.calls[k].todo - {c})).(shut := s.shut + {c})
    case AllClosed(k) => WithCall(s, k, Waiting)
    case Wait(k) => WithCall(s, k, Ended)
  }

  function Run(es: seq<Event>): Option<State> {
    if es == [] then Some(START)
    else
      var before := Run(es[..|es| - 1]);
      var e := es[|es| - 1];
      if before.Some? && Enabled(before.value, e) then Some(After(before.value, e)) else None
  }

  /** What comes from outside may come at any time: connections as long as the listener is open and Serve accepts,
      a peer hanging up, and calls of Shutdown; whoever waits for the lock gets it when it is free. */
  lemma OutsideIsFree(s: State, c: nat, k: nat)
    ensures Enabled(s, NewCall) && (s.acceptor.Listening? ==> Enabled(s, AcceptFails))
    ensures s.acceptor.Listening? && s.listening ==> Enabled(s, Accept)
    ensures c < |s.servers| && s.servers[c].Serving? ==> Enabled(s, Leave(c))
    ensures s.mu.None? ==>
      && (s.acceptor.Accepted? ==> Enabled(s, LockToRegister))
      && (c < |s.servers| && s.servers[c].Leaving? ==> Enabled(s, LockToRemove(c)))
      && (k < |s.calls| && s.calls[k].Calling? ==> Enabled(s, Lock(k)))
  {
  }

  // ----- sums over threads -----

  function Sum<T>(f: T -> nat, s: seq<T>): nat {
    if s == [] then 0 else f(s[0]) + Sum(f, s[1..])
  }

  lemma {:induction false} SumUpdate<T>(f: T -> nat, s: seq<T>, i: nat, x: T)
    requires i < |s|
    ensures Sum(f, s[i := x]) + f(s[i]) == Sum(f, s) + f(x)
  {
    if i > 0 {
      assert s[i := x][1..] == s[1..][i - 1 := x];
      SumUpdate(f, s[1..], i - 1, x);
    }
  }

  lemma {:induction false} SumAppend<T>(f: T -> nat, s: seq<T>, x: T)
    ensures Sum(f, s + [x]) == Sum(f, s) + f(x)
  {
    if s != [] {
      assert (s + [x])[1..] == s[1..] + [x];
      SumAppend(f, s[1..], x);
    }
  }

  lemma {:induction false} SumCovers<T>(f: T -> nat, s: seq<T>, i: nat)
    requires i < |s|
    ensures f(s[i]) <= Sum(f, s)
  {
    if i > 0 { SumCovers(f, s[1..], i - 1); }
  }

  lemma {:induction false} SumPositive<T>(f: T -> nat, s: seq<T>)
    requires Sum(f, s) > 0
    ensures exists i :: 0 <= i < |s| && f(s[i]) > 0
  {
    if f(s[0]) == 0 {
      SumPositive(f, s[1..]);
      var i :| 0 <= i < |s[1..]| && f(s[1..][i]) > 0;
      assert f(s[i + 1]) > 0;
    }
  }

  const Tally: Phase -> nat := (p: Phase) => if p.IsCounted() then 1 else 0

  // ----- the invariant -----

  ghost predicate LockOk(s: State) {
    && (s.mu == Some(Acceptor) <==> s.acceptor.Checking? || s.acceptor.Adding? || s.acceptor.Releasing?)
    && (forall c: nat :: s.mu == Some(Conn(c)) <==> c < |s.servers| && (s.servers[c].Removing? || s.servers[c].Removed?))
    && (forall k: nat :: s.mu == Some(Caller(k)) <==>
          k < |s.calls| && (s.calls[k].Holding? || s.calls[k].Snapping? || s.calls[k].Unlocking?))
  }

  /** The phase the acceptor leaves its connection in. */
  function Entering(a: Accepting): Option<Phase> {
    match a
    case Accepted => Some(Fresh) case Checking => Some(Fresh) case Refusing => Some(Fresh)
    case Adding => Some(Registered)
    case Releasing => Some(Counted) case Spawning => Some(Counted)
    case _ => None
  }

  /** Only the newest connection can be on its way in. */
  ghost predicate EntryOk(s: State) {
    && (Entering(s.acceptor).Some? ==> |s.servers| > 0 && s.servers[|s.servers| - 1] == Entering(s.acceptor).value)
    && (forall c: nat :: c < |s.servers| && (s.servers[c].Fresh? || s.servers[c].Registered? || s.servers[c].Counted?)
          ==> c == |s.servers| - 1 && Entering(s.acceptor).Some?)
  }

  ghost predicate CountOk(s: State) { s.wg == Sum(Tally, s.servers) }

  ghost predicate ConnsOk(s: State) {
    forall c: nat :: c in s.conns <==> c < |s.servers| && s.servers[c].InTable()
  }

  /** Once closing is set nothing is on its way into conns. */
  ghost predicate ClosingOk(s: State) {
    && (s.closing ==> !s.acceptor.Adding? && !s.acceptor.Releasing?)
    && (s.closing <==> s.first.Some?)
    && (forall k: nat :: s.first == Some(k) <==> k < |s.calls| && s.calls[k].First())
    && (s.snapshot.Some? ==> s.closing && s.conns <= s.snapshot.value)
  }

  /** How far the first call has come. */
  ghost predicate CallOk(s: State, p: Call) {
    match p
    case Snapping => s.snapshot.None?
    case Unlocking(todo) => s.snapshot == Some(todo)
    case Unlistening(todo) => s.snapshot == Some(todo)
    case Hanging(todo) => s.snapshot.Some? && !s.listening && s.snapshot.value <= todo + s.shut
    case Waiting => s.snapshot.Some? && !s.listening && s.snapshot.value <= s.shut
    case Ended => s.snapshot.Some? && !s.listening && s.wg == 0
    case _ => true
  }

  ghost predicate CallsOk(s: State) {
    forall k: nat :: k < |s.calls| ==> CallOk(s, s.calls[k])
  }

  /** A connection that has left serve, or was never let in, has had its socket closed. */
  ghost predicate SocketsOk(s: State) {
    forall c: nat :: c < |s.servers| && (s.servers[c].HasLeft() || s.servers[c].Over? || s.servers[c].Refused?) ==> c in s.shut
  }

  ghost predicate Inv(s: State) {
    LockOk(s) && EntryOk(s) && CountOk(s) && ConnsOk(s) && ClosingOk(s) && CallsOk(s) && SocketsOk(s)
  }

  lemma AcceptorKeepsCount(s: State, e: Event)
    requires CountOk(s) && EntryOk(s) && ClosingOk(s) && Enabled(s, e) && e.By().Acceptor?
    ensures CountOk(After(s, e)) && (s.closing ==> After(s, e).wg == s.wg)
  {
    var last := |s.servers| - 1;
    match e
    case Accept => SumAppend(Tally, s.servers, Fresh);
    case HangUp => SumUpdate(Tally, s.servers, last, Refused);
    case Register => SumUpdate(Tally, s.servers, last, Registered);
    case Count => SumUpdate(Tally, s.servers, last, Counted);
    case Spawn => SumUpdate(Tally, s.servers, last, Serving);
    case _ =>
  }

  lemma ConnKeepsCount(s: State, e: Event)
    requires CountOk(s) && Enabled(s, e) && e.By().Conn?
    ensures CountOk(After(s, e)) && After(s, e).wg <= s.wg
  {
    SumUpdate(Tally, s.servers, e.c, After(s, e).servers[e.c]);
  }

  lemma AcceptorKeepsConns(s: State, e: Event)
    requires ConnsOk(s) && EntryOk(s) && Enabled(s, e) && e.By().Acceptor?
    ensures ConnsOk(After(s, e)) && (s.closing ==> After(s, e).conns <= s.conns)
  {
  }

  lemma ConnKeepsConns(s: State, e: Event)
    requires ConnsOk(s) && Enabled(s, e) && e.By().Conn?
    ensures ConnsOk(After(s, e)) && After(s, e).conns <= s.conns
  {
  }

  lemma KeepsSockets(s: State, e: Event)
    requires SocketsOk(s) && Enabled(s, e)
    ensures SocketsOk(After(s, e))
  {
  }

  lemma AcceptorKeepsLock(s: State, e: Event)
    requires LockOk(s) && EntryOk(s) && Enabled(s, e) && e.By().Acceptor?
    ensures LockOk(After(s, e))
  {
  }

  lemma ConnKeepsLock(s: State, e: Event)
    requires LockOk(s) && Enabled(s, e) && e.By().Conn?
    ensures LockOk(After(s, e))
  {
  }

  lemma CallerKeepsLock(s: State, e: Event)
    requires LockOk(s) && Enabled(s, e) && e.By().Caller?
    ensures LockOk(After(s, e))
  {
  }

  lemma AcceptorKeepsEntry(s: State, e: Event)
    requires EntryOk(s) && Enabled(s, e) && e.By().Acceptor?
    ensures EntryOk(After(s, e))
  {
  }

  lemma ConnKeepsEntry(s: State, e: Event)
    requires EntryOk(s) && Enabled(s, e) && e.By().Conn?
    ensures EntryOk(After(s, e))
  {
  }

  lemma AcceptorKeepsClosing(s: State, e: Event)
    requires ClosingOk(s) && Enabled(s, e) && e.By().Acceptor? && (s.closing ==> After(s, e).conns <= s.conns)
    ensures ClosingOk(After(s, e))
  {
  }

  lemma ConnKeepsClosing(s: State, e: Event)
    requires ClosingOk(s) && Enabled(s, e) && e.By().Conn? && (s.closing ==> After(s, e).conns <= s.conns)
    ensures ClosingOk(After(s, e))
  {
  }

  lemma CallerKeepsClosing(s: State, e: Event)
    requires ClosingOk(s) && LockOk(s) && Enabled(s, e) && e.By().Caller?
    requires s.closing ==> After(s, e).conns <= s.conns
    ensures ClosingOk(After(s, e))
  {
  }

  /** Nothing the first call relies on is undone by the others. */
  lemma OthersKeepCalls(s: State, e: Event)
    requires CallsOk(s) && ClosingOk(s) && Enabled(s, e) && !e.By().Caller?
    requires s.closing ==> 0 <= After(s, e).wg <= s.wg
    ensures CallsOk(After(s, e))
  {
    var s' := After(s, e);
    forall k: nat | k < |s'.calls| ensures CallOk(s', s'.calls[k]) {
      if k < |s.calls| {
        assert CallOk(s, s.calls[k]);
        assert s.calls[k].First() ==> s.closing;
      }
    }
  }

  lemma CallerKeepsCalls(s: State, e: Event)
    requires CallsOk(s) && ClosingOk(s) && Enabled(s, e) && e.By().Caller?
    ensures CallsOk(After(s, e))
  {
    var s', j := After(s, e), e.By().k;
    assert CallOk(s, s.calls[j]);
    forall k: nat | k < |s'.calls| ensures CallOk(s', s'.calls[k]) {
      assert CallOk(s, s.calls[k]);
      if k != j && s.calls[k].First() { assert s.first == Some(k); }
    }
  }

  /** What no step undoes once closing is set. */
  ghost predicate Grown(s: State, s': State) {
    && (s.closing ==> s'.closing && s'.conns <= s.conns && s'.wg <= s.wg)
    && (s.snapshot.Some? ==> s'.snapshot == s.snapshot)
  }

  /** Every step of every thread keeps the invariant; once closing is set nothing is registered or counted. */
  lemma StepKeepsInv(s: State, e: Event)
    requires Inv(s) && Enabled(s, e)
    ensures Inv(After(s, e)) && Grown(s, After(s, e))
  {
    if e.By().Acceptor? {
      AcceptorKeepsParts(s, e);
    } else if e.By().Conn? {
      ConnKeepsParts(s, e);
    } else {
      CallerKeepsParts(s, e);
    }
  }

  lemma AcceptorKeepsParts(s: State, e: Event)
    requires Inv(s) && Enabled(s, e) && e.By().Acceptor?
    ensures Inv(After(s, e)) && Grown(s, After(s, e))
  {
    AcceptorKeepsCount(s, e);
    AcceptorKeepsConns(s, e);
    AcceptorKeepsLock(s, e);
    AcceptorKeepsEntry(s, e);
    AcceptorKeepsClosing(s, e);
    OthersKeepCalls(s, e);
    KeepsSockets(s, e);
  }

  lemma ConnKeepsParts(s: State, e: Event)
    requires Inv(s) && Enabled(s, e) && e.By().Conn?
    ensures Inv(After(s, e)) && Grown(s, After(s, e))
  {
    ConnKeepsCount(s, e);
    ConnKeepsConns(s, e);
    ConnKeepsLock(s, e);
    ConnKeepsEntry(s, e);
    ConnKeepsClosing(s, e);
    OthersKeepCalls(s, e);
    KeepsSockets(s, e);
  }

  lemma CallerKeepsParts(s: State, e: Event)
    requires Inv(s) && Enabled(s, e) && e.By().Caller?
    ensures Inv(After(s, e)) && Grown(s, After(s, e))
  {
    assert After(s, e).servers == s.servers && After(s, e).conns == s.conns && After(s, e).acceptor == s.acceptor;
    CallerKeepsLock(s, e);
    CallerKeepsClosing(s, e);
    CallerKeepsCalls(s, e);
    KeepsSockets(s, e);
  }

  lemma {:induction false} InvHolds(es: seq<Event>)
    requires Run(es).Some?
    ensures Inv(Run(es).value)
  {
    if es != [] {
      InvHolds(es[..|es| - 1]);
      StepKeepsInv(Run(es[..|es| - 1]).value, es[|es| - 1]);
    }
  }

  lemma {:induction false} RunGrows(es: seq<Event>, more: seq<Event>)
    requires Run(es + more).Some?
    ensures Run(es).Some? && Inv(Run(es).value) && Inv(Run(es + more).value)
    ensures Grown(Run(es).value, Run(es + more).value)
  {
    if more == [] {
      assert es + more == es;
    } else {
      var all, last := es + more, |more| - 1;
      assert all[..|all| - 1] == es + more[..last];
      RunGrows(es, more[..last]);
      StepKeepsInv(Run(es + more[..last]).value, more[last]);
    }
    InvHolds(es + more);
  }

  // ----- safety -----

  /** Once the snapshot is taken, each connection that is still counted is in it or has already left serve;
      and nobody is on the way in. */
  lemma CountedAreCovered(es: seq<Event>, c: nat)
    requires Run(es).Some? && Run(es).value.snapshot.Some?
    requires c < |Run(es).value.servers| && Run(es).value.servers[c].IsCounted()
    ensures c in Run(es).value.snapshot.value || Run(es).value.servers[c].HasLeft()
    ensures !Run(es).value.acceptor.Adding? && !Run(es).value.acceptor.Releasing?
  {
    InvHolds(es);
    CountedIsCovered(Run(es).value, c);
  }

  lemma CountedIsCovered(s: State, c: nat)
    requires Inv(s) && s.snapshot.Some? && c < |s.servers| && s.servers[c].IsCounted()
    ensures c in s.snapshot.value || s.servers[c].HasLeft()
    ensures !s.acceptor.Adding? && !s.acceptor.Releasing?
  {
  }

  /** Nothing is registered or counted after the snapshot, however the run goes on. */
  lemma NothingAfterSnapshot(es: seq<Event>, more: seq<Event>)
    requires Run(es + more).Some? && Run(es).Some? && Run(es).value.snapshot.Some?
    ensures Run(es + more).value.snapshot == Run(es).value.snapshot
    ensures Run(es + more).value.conns <= Run(es).value.conns <= Run(es).value.snapshot.value
    ensures Run(es + more).value.wg <= Run(es).value.wg
  {
    RunGrows(es, more);
    SnapshotCovers(Run(es).value);
  }

  lemma SnapshotCovers(s: State)
    requires Inv(s) && s.snapshot.Some?
    ensures s.closing && s.conns <= s.snapshot.value
  {
  }

  /** When the first Shutdown has returned, every connection there ever was is over or was never let in,
      or has just been accepted and will be refused; and it stays so. */
  lemma ReturnsWhenAllAreOver(es: seq<Event>, more: seq<Event>, k: nat, c: nat)
    requires Run(es + more).Some? && Run(es).Some? && CallIn(Run(es).value, k, Ended)
    requires c < |Run(es + more).value.servers|
    ensures var p := Run(es + more).value.servers[c]; p.Over? || p.Refused? || p.Fresh?
    ensures !Run(es + more).value.servers[c].Fresh? ==> c in Run(es + more).value.shut
    ensures Run(es + more).value.conns == {}
  {
    RunGrows(es, more);
    EndedCountsNone(Run(es).value, k);
    NoneCountedMeansOver(Run(es + more).value, c);
  }

  lemma EndedCountsNone(s: State, k: nat)
    requires Inv(s) && CallIn(s, k, Ended)
    ensures s.closing && s.wg == 0
  {
    assert CallOk(s, s.calls[k]);
  }

  lemma NoneCountedMeansOver(s: State, c: nat)
    requires Inv(s) && s.closing && s.wg <= 0 && c < |s.servers|
    ensures s.servers[c].Over? || s.servers[c].Refused? || s.servers[c].Fresh?
    ensures s.conns == {} && (!s.servers[c].Fresh? ==> c in s.shut)
  {
    forall d: nat | d < |s.servers| ensures !s.servers[d].IsCounted() && !s.servers[d].Registered? {
      SumCovers(Tally, s.servers, d);
    }
  }

  /** A Shutdown that is not the first changes nothing but who holds the lock and how far it has come itself. */
  lemma LaterCallsChangeNothing(es: seq<Event>, e: Event)
    requires Run(es).Some? && Run(es).value.closing && Enabled(Run(es).value, e)
    requires e.By().Caller? && Some(e.By().k) != Run(es).value.first
    ensures var s, s' := Run(es).value, After(Run(es).value, e);
      s' == s.(mu := s'.mu, calls := s.calls[e.By().k := s'.calls[e.By().k]])
  {
    InvHolds(es);
  }

  // ----- progress -----

  /** Steps that are bound to happen: not a new connection, not a new call, and serve returning only when its
      socket has been closed. */
  predicate Forced(s: State, e: Event) {
    !e.Accept? && !e.AcceptFails? && !e.NewCall? && (e.Leave? ==> e.c in s.shut)
  }

  /** Whoever holds the lock can go on, so nobody waits for it for ever. */
  lemma HolderCanMove(es: seq<Event>)
    requires Run(es).Some? && Run(es).value.mu.Some?
    ensures var s := Run(es).value;
      exists e: Event :: e.By() == s.mu.value && Enabled(s, e) && Forced(s, e)
  {
    InvHolds(es);
    var s := Run(es).value;
    match s.mu.value
    case Acceptor =>
      var e := if s.acceptor.Checking? then (if s.closing then Refuse else Register)
        else if s.acceptor.Adding? then Count else Release;
      assert e.By() == Acceptor && Enabled(s, e) && Forced(s, e);
    case Conn(c) =>
      var e := if s.servers[c].Removing? then Remove(c) else Unlock(c);
      assert e.By() == Conn(c) && Enabled(s, e) && Forced(s, e);
    case Caller(k) =>
      var e := if s.calls[k].Holding? then (if s.closing then FindClosed(k) else Close(k))
        else if s.calls[k].Snapping? then Snap(k) else UnlockCall(k);
      assert e.By() == Caller(k) && Enabled(s, e) && Forced(s, e);
  }

  function AcceptorRank(a: Accepting): nat {
    match a
    case Spawning => 5 case Listening => 4 case Accepted => 3 case Checking => 2 case Refusing => 1 case _ => 0
  }

  const PhaseRank: Phase -> nat := (p: Phase) =>
    match p
    case Counted => 6 case Serving => 5 case Leaving => 4 case Removing => 3 case Removed => 2 case Unlocked => 1
    case _ => 0

  const CallRank: Call -> nat := (p: Call) =>
    match p
    case Calling => 2 case Holding => 1
    case Unlocking(todo) => 4 + |todo| case Unlistening(todo) => 3 + |todo| case Hanging(todo) => 2 + |todo|
    case Waiting => 1
    case _ => 0

  /** After the snapshot: how many steps are left for all threads together. */
  function Rank(s: State): nat {
    AcceptorRank(s.acceptor) + Sum(PhaseRank, s.servers) + Sum(CallRank, s.calls)
  }

  lemma AcceptorLowers(s: State, e: Event)
    requires Inv(s) && s.snapshot.Some? && Enabled(s, e) && e.By().Acceptor? && !e.NewCall?
    ensures Rank(After(s, e)) < Rank(s)
  {
    SnapshotCovers(s);
    match e
    case Accept => SumAppend(PhaseRank, s.servers, Fresh);
    case HangUp => SumUpdate(PhaseRank, s.servers, |s.servers| - 1, Refused);
    case Spawn => SumUpdate(PhaseRank, s.servers, |s.servers| - 1, Serving);
    case _ =>
  }

  lemma ConnLowers(s: State, e: Event)
    requires Inv(s) && Enabled(s, e) && e.By().Conn?
    ensures Rank(After(s, e)) < Rank(s)
  {
    PhaseDrops(s, e);
    SumUpdate(PhaseRank, s.servers, e.c, After(s, e).servers[e.c]);
  }

  lemma PhaseDrops(s: State, e: Event)
    requires Enabled(s, e) && e.By().Conn?
    ensures var p := After(s, e).servers[e.c];
      PhaseRank(p) < PhaseRank(s.servers[e.c]) && After(s, e).servers == s.servers[e.c := p]
    ensures After(s, e).acceptor == s.acceptor && After(s, e).calls == s.calls
  {
  }

  lemma CallerLowers(s: State, e: Event)
    requires Inv(s) && s.snapshot.Some? && Enabled(s, e) && e.By().Caller?
    ensures Rank(After(s, e)) < Rank(s)
  {
    SnapshotCovers(s);
    var k := e.By().k;
    assert CallOk(s, s.calls[k]);
    SumUpdate(CallRank, s.calls, k, After(s, e).calls[k]);
  }

  /** While the first Shutdown has not returned, some thread is bound to move: the holder of the lock, the
      call itself, or a connection whose socket the call has closed. */
  lemma SomebodyMoves(s: State)
    requires Inv(s) && s.snapshot.Some? && s.mu.None?
    requires s.first.Some? && s.first.value < |s.calls| && !s.calls[s.first.value].Ended?
    ensures exists e: Event :: Enabled(s, e) && Forced(s, e)
  {
    var k := s.first.value;
    assert CallOk(s, s.calls[k]);
    match s.calls[k]
    case Unlistening(_) => assert Enabled(s, Unlisten(k)) && Forced(s, Unlisten(k));
    case Hanging(todo) =>
      var e := if todo == {} then AllClosed(k) else var c :| c in todo; CloseSocket(k, c);
      assert Enabled(s, e) && Forced(s, e);
    case Waiting =>
      if s.wg == 0 {
        assert Enabled(s, Wait(k)) && Forced(s, Wait(k));
      } else {
        SumPositive(Tally, s.servers);
        var c :| 0 <= c < |s.servers| && s.servers[c].IsCounted();
        CountedIsCovered(s, c);
        var e := if s.servers[c].Counted? then Spawn
          else if s.servers[c].Serving? then Leave(c)
          else if s.servers[c].Leaving? then LockToRemove(c) else Done(c);
        assert Enabled(s, e) && Forced(s, e);
      }
  }

  lemma BoundToMove(es: seq<Event>)
    requires Run(es).Some? && Run(es).value.snapshot.Some?
    ensures var s := Run(es).value;
      && s.first.Some? && s.first.value < |s.calls|
      && (s.calls[s.first.value].Ended? || exists e: Event :: Enabled(s, e) && Forced(s, e))
  {
    InvHolds(es);
    SnapshotCovers(Run(es).value);
    if Run(es).value.mu.Some? {
      HolderCanMove(es);
    } else if !Run(es).value.calls[Run(es).value.first.value].Ended? {
      SomebodyMoves(Run(es).value);
    }
  }

  ghost predicate NoCalls(es: seq<Event>) { forall i :: 0 <= i < |es| ==> !es[i].NewCall? }

  /** Shutdown returns: after its snapshot only so many steps are left, whatever their order, as long as nobody
      calls Shutdown anew; and until it has returned one of them is bound to happen (BoundToMove). */
  lemma {:induction false} ShutdownReturns(es: seq<Event>, more: seq<Event>)
    requires Run(es + more).Some? && Run(es).Some? && Run(es).value.snapshot.Some?
    requires NoCalls(more)
    ensures |more| + Rank(Run(es + more).value) <= Rank(Run(es).value)
  {
    if more == [] {
      assert es + more == es;
    } else {
      var init, e := more[..|more| - 1], more[|more| - 1];
      Regroup(es, more);
      RankDrops(es, init, e);
      ShutdownReturns(es, init);
    }
  }

  lemma Regroup(es: seq<Event>, more: seq<Event>)
    requires more != []
    ensures es + more == es + more[..|more| - 1] + [more[|more| - 1]]
  {
  }

  lemma RankDrops(es: seq<Event>, more: seq<Event>, e: Event)
    requires Run(es + more + [e]).Some? && Run(es).Some? && Run(es).value.snapshot.Some? && !e.NewCall?
    ensures Run(es + more).Some?
    ensures Rank(Run(es + more + [e]).value) < Rank(Run(es + more).value)
  {
    var all := es + more + [e];
    assert all[..|all| - 1] == es + more;
    RunGrows(es, more);
    StepLowers(Run(es + more).value, e);
  }

  lemma StepLowers(s: State, e: Event)
    requires Inv(s) && s.snapshot.Some? && Enabled(s, e) && !e.NewCall?
    ensures Rank(After(s, e)) < Rank(s)
  {
    if e.By().Acceptor? {
      AcceptorLowers(s, e);
    } else if e.By().Conn? {
      ConnLowers(s, e);
    } else {
      CallerLowers(s, e);
    }
  }
}
