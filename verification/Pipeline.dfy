/** The reader and the writer of one connection (conn.serve in internal/smb/server.go) as interleaved
    steps: responses go from one to the other through a channel that holds at most DEPTH of them.
  */
module Pipeline {
  import opened Bytes
  import opened Transport

  const DEPTH: nat := 8

  /** The reader's deferred exit closes the channel, waits for the writer, and closes the handles. */
  datatype Reader = Reading | Sending(msg: bytes) | Stopping | Joining | Closing | Gone

  datatype Writer = Idle | Writing(msg: bytes) | Draining | Done

  /** `asked` lists the responses in the order of their requests, `done` says how many of them are on the
      wire as whole frames, `cut` how many bytes of the next frame are; `failed` is set when a write fails.
    */
  datatype State = State(
    reader: Reader, writer: Writer, queue: seq<bytes>, closed: bool, wire: bytes, handlesOpen: bool,
    asked: seq<bytes>, done: nat, cut: nat, failed: bool)

  const START := State(Reading, Idle, [], false, [], true, [], 0, 0, false)

  datatype Event =
    // the reader
    | Take(msg: bytes) | Skip | Stop | Enqueue | CloseQueue | Join | CloseHandles
    // the writer
    | Pop | Refuse | Put(n: nat) | Break | Finish | Drop | End
  {
    predicate ByWriter() { Pop? || Refuse? || Put? || Break? || Finish? || Drop? || End? }

    /** Steps that wait for the peer's next request. */
    predicate Receives() { Take? || Skip? }
  }

  predicate Enabled(s: State, e: Event) {
    match e
    case Take(_) => s.reader.Reading?
    case Skip => s.reader.Reading?
    case Stop => s.reader.Reading?
    case Enqueue => s.reader.Sending? && |s.queue| < DEPTH
    case CloseQueue => s.reader.Stopping?
    case Join => s.reader.Joining? && s.writer.Done?
    case CloseHandles => s.reader.Closing?
    case Pop => s.writer.Idle? && s.queue != []
    case Refuse => s.writer.Writing? && |s.writer.msg| > MAX_MESSAGE
    case Put(n) => s.writer.Writing? && |s.writer.msg| <= MAX_MESSAGE && 0 < n <= |Frame(s.writer.msg)| - s.cut
    case Break => s.writer.Writing? && |s.writer.msg| <= MAX_MESSAGE && s.cut < |Frame(s.writer.msg)|
    case Finish => s.writer.Writing? && s.cut == |Frame(s.writer.msg)|
    case Drop => s.writer.Draining? && s.queue != []
    case End => (s.writer.Idle? || s.writer.Draining?) && s.closed && s.queue == []
  }

  function After(s: State, e: Event): State
    requires Enabled(s, e)
  {
    match e
    case Take(msg) => s.(reader := Sending(msg), asked := s.asked + [msg])
    case Skip => s
    case Stop => s.(reader := Stopping)
    case Enqueue => s.(reader := Reading, queue := s.queue + [s.reader.msg])
    case CloseQueue => s.(reader := Joining, closed := true)
    case Join => s.(reader := Closing)
    case CloseHandles => s.(reader := Gone, handlesOpen := false)
    case Pop => s.(writer := Writing(s.queue[0]), queue := s.queue[1..])
    case Refuse => s.(writer := Draining, failed := true)
    case Put(n) => s.(wire := s.wire + Frame(s.writer.msg)[s.cut..][..n], cut := s.cut + n)
    case Break => s.(writer := Draining, failed := true)
    case Finish => s.(writer := Idle, done := s.done + 1, cut := 0)
    case Drop => s.(queue := s.queue[1..])
    case End => s.(writer := Done)
  }

  /** The state after a sequence of events, if each could happen when it did. */
  function Run(es: seq<Event>): Option<State> {
    if es == [] then Some(START)
    else
      var before := Run(es[..|es| - 1]);
      var e := es[|es| - 1];
      if before.Some? && Enabled(before.value, e) then Some(After(before.value, e)) else None
  }

  // ----- the invariant -----

  function Held(r: Reader): seq<bytes> { if r.Sending? then [r.msg] else [] }

  function InHand(w: Writer): seq<bytes> { if w.Writing? then [w.msg] else [] }

  /** The responses not yet on the wire, oldest first. */
  function Pending(s: State): seq<bytes> { InHand(s.writer) + s.queue + Held(s.reader) }

  /** As much of the next response's frame as is on the wire. */
  function Partial(s: State): bytes
    requires s.done <= |s.asked|
  {
    if s.done < |s.asked| && s.cut <= |Frame(s.asked[s.done])| then Frame(s.asked[s.done])[..s.cut] else []
  }

  ghost predicate Inv(s: State) {
    && Bounds(s)
    && s.wire == FrameAll(s.asked[..s.done]) + Partial(s)
    && (!s.failed ==> s.asked[s.done..] == Pending(s))
    && Phases(s)
  }

  /** The channel never holds more than DEPTH; only messages within the limit reach the wire. */
  ghost predicate Bounds(s: State) {
    && |s.queue| <= DEPTH && s.done <= |s.asked|
    && Sendable(s.asked[..s.done])
    && (s.cut > 0 ==> s.done < |s.asked| && |s.asked[s.done]| <= MAX_MESSAGE && s.cut <= |Frame(s.asked[s.done])|)
    && (s.cut > 0 && !s.writer.Writing? ==> s.failed && s.cut < |Frame(s.asked[s.done])|)
  }

  ghost predicate Phases(s: State) {
    && (s.failed ==> s.writer.Draining? || s.writer.Done?)
    && (s.failed ==> s.done < |s.asked|)
    && (s.writer.Draining? ==> s.failed)
    && (s.closed <==> s.reader.Joining? || s.reader.Closing? || s.reader.Gone?)
    && (s.writer.Done? ==> s.closed && s.queue == [])
    && (s.reader.Closing? || s.reader.Gone? ==> s.writer.Done?)
    && (s.handlesOpen <==> !s.reader.Gone?)
  }

  lemma ReaderKeepsInv(s: State, e: Event)
    requires Inv(s) && Enabled(s, e) && !e.ByWriter()
    ensures Inv(After(s, e))
  {
    var s' := After(s, e);
    if e.Take? {
      assert s'.asked[..s.done] == s.asked[..s.done];
      assert s'.asked[s.done..] == s.asked[s.done..] + [e.msg];
      if s.cut > 0 { assert s'.asked[s.done] == s.asked[s.done]; }
      assert !s.failed ==> s'.asked[s.done..] == Pending(s');
    } else if e.Enqueue? {
      assert Pending(s') == Pending(s);
    }
  }

  lemma WriterKeepsInv(s: State, e: Event)
    requires Inv(s) && Enabled(s, e) && e.ByWriter() && !e.Put? && !e.Finish?
    ensures Inv(After(s, e))
  {
    var s' := After(s, e);
    if e.Pop? {
      assert Pending(s') == Pending(s);
    } else if e.Refuse? || e.Break? {
      assert s.asked[s.done] == Pending(s)[0];
    }
  }

  lemma PutKeepsInv(s: State, n: nat)
    requires Inv(s) && Enabled(s, Put(n))
    ensures Inv(After(s, Put(n)))
  {
    var s' := After(s, Put(n));
    var frame := Frame(s.writer.msg);
    assert s.asked[s.done] == Pending(s)[0] == s.writer.msg;
    assert frame[..s.cut] + frame[s.cut..][..n] == frame[..s.cut + n];
    Assoc(FrameAll(s.asked[..s.done]), frame[..s.cut], frame[s.cut..][..n]);
  }

  lemma FinishKeepsInv(s: State)
    requires Inv(s) && Enabled(s, Finish)
    ensures Inv(After(s, Finish))
  {
    var s' := After(s, Finish);
    var msg := s.writer.msg;
    assert s.asked[s.done] == Pending(s)[0] == msg;
    assert s'.asked[..s'.done] == s.asked[..s.done] + [msg];
    FrameAllSnoc(s.asked[..s.done], msg);
    assert Frame(msg)[..s.cut] == Frame(msg);
    assert s.wire + [] == s.wire;
    assert Pending(s) == [msg] + Pending(s');
    assert s'.asked[s'.done..] == s.asked[s.done..][1..];
  }

  lemma {:induction false} InvHolds(es: seq<Event>)
    requires Run(es).Some?
    ensures Inv(Run(es).value)
  {
    if es != [] {
      InvHolds(es[..|es| - 1]);
      var s, e := Run(es[..|es| - 1]).value, es[|es| - 1];
      if e.Put? {
        PutKeepsInv(s, e.n);
      } else if e.Finish? {
        FinishKeepsInv(s);
      } else if e.ByWriter() {
        WriterKeepsInv(s, e);
      } else {
        ReaderKeepsInv(s, e);
      }
    }
  }

  // ----- what every interleaving keeps -----

  /** The wire carries the frames of the first responses in request order, then at most a part of the next
      one's frame; and a connection that ends without a failed write has sent them all. */
  lemma WireIsInOrder(es: seq<Event>)
    requires Run(es).Some?
    ensures var s := Run(es).value;
      && s.done <= |s.asked| && |s.queue| <= 8
      && s.wire == FrameAll(s.asked[..s.done]) + Partial(s)
      && (s.reader.Gone? && !s.failed ==> s.wire == FrameAll(s.asked))
  {
    InvHolds(es);
    var s := Run(es).value;
    if s.reader.Gone? && !s.failed {
      assert Pending(s) == [];
      assert s.asked[..s.done] == s.asked;
    }
  }

  /** So a peer that reads the stream at any moment gets exactly the first responses, unless one had 2^24
      bytes; and all of them in the end, unless a write failed. */
  lemma PeerReadsPrefix(es: seq<Event>)
    requires Run(es).Some? && Fit(Run(es).value.asked)
    ensures var s := Run(es).value;
      && Messages(s.wire) <= s.asked && s.done <= |Messages(s.wire)| <= s.done + 1
      && (s.reader.Gone? && !s.failed ==> Messages(s.wire) == s.asked)
  {
    InvHolds(es);
    WireIsInOrder(es);
    var s := Run(es).value;
    if s.cut > 0 && s.cut == |Frame(s.asked[s.done])| {
      var whole := s.asked[..s.done + 1];
      assert whole == s.asked[..s.done] + [s.asked[s.done]];
      FrameAllSnoc(s.asked[..s.done], s.asked[s.done]);
      assert Partial(s) == Frame(s.asked[s.done]);
      StreamIsReadBackExactly(whole);
    } else {
      if s.cut > 0 { CutFrame(s.asked[s.done], s.cut); }
      assert Parse(Partial(s)) == Short;
      StreamIsReadBack(s.asked[..s.done], Partial(s));
    }
    if s.reader.Gone? && !s.failed {
      assert Pending(s) == [];
      assert s.asked[..s.done] == s.asked;
    }
  }

  /** The handles are closed once the writer is done, and nothing is sent afterwards. */
  lemma HandlesOutliveWriter(es: seq<Event>)
    requires Run(es).Some?
    ensures var s := Run(es).value;
      !s.handlesOpen ==> s.writer.Done? && s.queue == [] && forall e :: !Enabled(s, e)
  {
    InvHolds(es);
  }

  /** The peer may send any request next, or none that is answered, or be gone. */
  lemma PeerIsFree(s: State, msg: bytes)
    requires s.reader.Reading?
    ensures Enabled(s, Take(msg)) && Enabled(s, Skip) && Enabled(s, Stop)
  {
  }

  /** The writer may put any part of what is left of a frame on the wire, and fail anywhere before its end; a
      message of more than 16 MiB fails before its first byte. */
  lemma WritesMayFailAnywhere(s: State, n: nat)
    requires s.writer.Writing? && s.cut < |s.writer.msg| + 4
    ensures if |s.writer.msg| > 16777216 then Enabled(s, Refuse) && !Enabled(s, Put(n))
      else Enabled(s, Break) && (0 < n <= |s.writer.msg| + 4 - s.cut ==> Enabled(s, Put(n)))
    ensures !Enabled(s, Finish)
  {
  }

  // ----- progress -----

  function Cost(msg: bytes): nat { |msg| + 7 }

  function Work(msgs: seq<bytes>): nat {
    if msgs == [] then 0 else Cost(msgs[0]) + Work(msgs[1..])
  }

  /** What is left to do before the peer's next request, or the end. */
  function Rank(s: State): nat {
    var r := match s.reader
      case Reading => 4
      case Sending(msg) => 5 + Cost(msg)
      case Stopping => 3
      case Joining => 2
      case Closing => 1
      case Gone => 0;
    var w := match s.writer
      case Idle => 1
      case Writing(msg) => if s.cut <= |Frame(msg)| then |Frame(msg)| - s.cut + 2 else 2
      case Draining => 1
      case Done => 0;
    r + Work(s.queue) + w
  }

  lemma {:induction false} WorkSnoc(msgs: seq<bytes>, msg: bytes)
    ensures Work(msgs + [msg]) == Work(msgs) + Cost(msg)
  {
    if msgs == [] {
      assert msgs + [msg] == [msg];
      assert [msg][1..] == [];
    } else {
      assert (msgs + [msg])[1..] == msgs[1..] + [msg];
      WorkSnoc(msgs[1..], msg);
    }
  }

  /** Each step that does not wait for the peer's next request leaves less to do. */
  lemma StepsLower(s: State, e: Event)
    requires Inv(s) && Enabled(s, e) && !e.Receives()
    ensures Rank(After(s, e)) < Rank(s)
  {
    if e.Enqueue? { WorkSnoc(s.queue, s.reader.msg); }
  }

  /** A reader blocked on a full channel always has a writer that can move; and at any time, unless the
      reader waits for the peer or is gone, somebody can move without the peer's next request. */
  lemma NeverStuck(es: seq<Event>)
    requires Run(es).Some?
    ensures var s := Run(es).value;
      && (s.reader.Sending? && |s.queue| < 8 ==> Enabled(s, Enqueue))
      && (s.reader.Sending? && |s.queue| == 8 ==> exists e: Event :: e.ByWriter() && Enabled(s, e))
      && (!s.reader.Reading? && !s.reader.Gone? ==> exists e: Event :: !e.Receives() && Enabled(s, e))
  {
    InvHolds(es);
    var s := Run(es).value;
    var mover :=
      if s.writer.Idle? then (if s.queue != [] then Pop else End)
      else if s.writer.Writing? then
        if |s.writer.msg| > MAX_MESSAGE then Refuse else if s.cut == |Frame(s.writer.msg)| then Finish else Put(1)
      else if s.queue != [] then Drop else End;
    if s.writer.Writing? { assert s.asked[s.done] == Pending(s)[0] == s.writer.msg; }
    if s.reader.Sending? {
      if |s.queue| == DEPTH { assert mover.ByWriter() && Enabled(s, mover); }
      if |s.queue| < DEPTH { assert Enabled(s, Enqueue); }
    } else if s.reader.Stopping? {
      assert Enabled(s, CloseQueue);
    } else if s.reader.Joining? {
      if s.writer.Done? { assert Enabled(s, Join); } else { assert Enabled(s, mover); }
    } else if s.reader.Closing? {
      assert Enabled(s, CloseHandles);
    }
  }

  /** Between two requests only so many steps are possible: a run that receives nothing more ends, and then
      the reader is waiting for the peer or the connection is over. */
  lemma {:induction false} EveryRunSettles(es: seq<Event>, more: seq<Event>)
    requires Run(es + more).Some? && Run(es).Some?
    requires forall i :: 0 <= i < |more| ==> !more[i].Receives()
    ensures |more| + Rank(Run(es + more).value) <= Rank(Run(es).value)
  {
    if more == [] {
      assert es + more == es;
    } else {
      var all, last := es + more, |more| - 1;
      assert all[..|all| - 1] == es + more[..last];
      EveryRunSettles(es, more[..last]);
      InvHolds(es + more[..last]);
      StepsLower(Run(es + more[..last]).value, more[last]);
    }
  }
}
