/** Direct TCP framing of messages (internal/smb/transport.go). */
module Transport {
  import opened Bytes

  const MAX_MESSAGE: nat := 0x100_0000

  /** The low 24 bits of n, highest byte first. */
  function Be24(n: nat): (b: bytes)
    ensures |b| == 3
  {
    [n / 0x100 / 0x100 % 0x100, n / 0x100 % 0x100, n % 0x100]
  }

  function Num24(f: bytes): (n: nat)
    requires |f| == 3
    ensures n < MAX_MESSAGE
  {
    f[2] as int + 0x100 * (f[1] as int + 0x100 * f[0] as int)
  }

  lemma Be24IsModulo(n: nat)
    ensures Num24(Be24(n)) == n % 0x100_0000
  {
    var high, top := n / 0x100, n / 0x100 / 0x100;
    assert n == 0x100 * high + n % 0x100 && high == 0x100 * top + high % 0x100;
    assert n == 0x100_0000 * (top / 0x100) + Num24(Be24(n));
  }

  function Frame(msg: bytes): (f: bytes)
    ensures |f| == |msg| + 4
  {
    [0] + Be24(|msg|) + msg
  }

  /** The four bytes ahead of a message: a zero, and its length in three bytes, highest first, for all lengths they
      can hold. */
  lemma FrameHeader(msg: bytes)
    ensures var f := Frame(msg);
      && f[0] == 0 && f[4..] == msg
      && (|msg| < 0x100_0000 ==> |msg| == 65536 * f[1] as int + 256 * f[2] as int + f[3] as int)
  {
    Be24IsModulo(|msg|);
  }

  datatype Parsed = Message(msg: bytes, rest: bytes) | Short

  /** The first message of a stream. The first byte is not looked at, and no length that 24 bits can
      say is over the limit. */
  function Parse(s: bytes): (p: Parsed)
    ensures p.Message? ==> |p.rest| < |s|
  {
    if |s| < 4 then Short
    else
      var n := Num24(s[1..4]);
      if |s[4..]| < n then Short else Message(s[4..][..n], s[4..][n..])
  }

  /** Whatever the first byte of a stream is, it reads the same. */
  lemma FirstByteIsIgnored(s: bytes, b: byte)
    requires s != []
    ensures Parse(s[0 := b]) == Parse(s)
  {
    if |s| >= 4 { assert s[0 := b][1..4] == s[1..4] && s[0 := b][4..] == s[4..]; }
  }

  lemma FrameParts(msg: bytes, rest: bytes)
    ensures (Frame(msg) + rest)[1..4] == Be24(|msg|) && (Frame(msg) + rest)[4..] == msg + rest
  {
  }

  /** 16 MiB. */
  lemma Limit()
    ensures MAX_MESSAGE == 16 * 1024 * 1024
  {
  }

  /** A frame is read back exactly when its length fits 24 bits; the writer lets one more through. */
  lemma FrameIsReadBack(msg: bytes, rest: bytes)
    requires |msg| <= MAX_MESSAGE
    ensures Parse(Frame(msg) + rest) == Message(msg, rest) <==> |msg| < MAX_MESSAGE
    ensures |msg| == MAX_MESSAGE ==> Parse(Frame(msg) + rest) == Message([], msg + rest)
  {
    FrameParts(msg, rest);
    Be24IsModulo(|msg|);
    assert (msg + rest)[..|msg|] == msg && (msg + rest)[|msg|..] == rest;
    assert (msg + rest)[..0] == [] && (msg + rest)[0..] == msg + rest;
  }

  /** A frame that is cut short is no message. */
  lemma CutFrame(msg: bytes, k: nat)
    requires |msg| < MAX_MESSAGE && k < |msg| + 4
    ensures Parse(Frame(msg)[..k]) == Short
  {
    if k >= 4 {
      FrameParts(msg, []);
      assert Frame(msg) + [] == Frame(msg);
      assert Frame(msg)[..k][1..4] == Be24(|msg|);
      Be24IsModulo(|msg|);
    }
  }

  // ----- streams -----

  function FrameAll(msgs: seq<bytes>): bytes {
    if msgs == [] then [] else Frame(msgs[0]) + FrameAll(msgs[1..])
  }

  /** All the messages of a stream, up to where it is cut off. */
  function Messages(s: bytes): seq<bytes>
    decreases |s|
  {
    match Parse(s)
    case Short => []
    case Message(msg, rest) => [msg] + Messages(rest)
  }

  predicate Fit(msgs: seq<bytes>) {
    forall i :: 0 <= i < |msgs| ==> |msgs[i]| < MAX_MESSAGE
  }

  predicate Sendable(msgs: seq<bytes>) {
    forall i :: 0 <= i < |msgs| ==> |msgs[i]| <= MAX_MESSAGE
  }

  /** Whatever follows, as long as it is no message itself. */
  lemma {:induction false} StreamIsReadBack(msgs: seq<bytes>, tail: bytes)
    requires Fit(msgs) && Parse(tail) == Short
    ensures Messages(FrameAll(msgs) + tail) == msgs
  {
    if msgs == [] {
      assert FrameAll(msgs) + tail == tail;
    } else {
      Assoc(Frame(msgs[0]), FrameAll(msgs[1..]), tail);
      FrameIsReadBack(msgs[0], FrameAll(msgs[1..]) + tail);
      StreamIsReadBack(msgs[1..], tail);
    }
  }

  /** What the writer accepts comes back from the stream exactly when no message has 2^24 bytes. */
  lemma {:induction false} StreamIsReadBackExactly(msgs: seq<bytes>)
    requires Sendable(msgs)
    ensures Messages(FrameAll(msgs)) == msgs <==> Fit(msgs)
  {
    if msgs != [] {
      FrameIsReadBack(msgs[0], FrameAll(msgs[1..]));
      StreamIsReadBackExactly(msgs[1..]);
      assert msgs == [msgs[0]] + msgs[1..];
      if |msgs[0]| == MAX_MESSAGE {
        assert Messages(FrameAll(msgs))[0] == [];
      } else {
        assert Messages(FrameAll(msgs))[1..] == Messages(FrameAll(msgs[1..]));
      }
    }
  }

  lemma {:induction false} FrameAllSnoc(msgs: seq<bytes>, msg: bytes)
    ensures FrameAll(msgs + [msg]) == FrameAll(msgs) + Frame(msg)
  {
    if msgs == [] {
      assert msgs + [msg] == [msg];
      assert [msg][1..] == [];
      assert Frame(msg) + [] == Frame(msg);
    } else {
      assert (msgs + [msg])[1..] == msgs[1..] + [msg];
      FrameAllSnoc(msgs[1..], msg);
      Assoc(Frame(msgs[0]), FrameAll(msgs[1..]), Frame(msg));
    }
  }

  // ----- the two ends of a connection -----

  /** The bytes the peer sends before it closes its end. */
  class Source {
    const data: bytes
    var pos: nat

    ghost predicate Valid()
      reads this
    {
      pos <= |data|
    }

    function Left(): bytes
      reads this
      requires Valid()
    {
      data[pos..]
    }

    constructor (data: bytes)
      ensures Valid() && Left() == data
    {
      this.data, pos := data, 0;
    }

    /** io.ReadFull: all n bytes or an error, which uses up what there was. */
    method ReadFull(n: nat) returns (got: Option<bytes>)
      requires Valid()
      modifies this
      ensures Valid()
      ensures if n <= |old(Left())| then got == Some(old(Left())[..n]) && Left() == old(Left())[n..]
        else got == None && Left() == []
    {
      if n <= |data| - pos {
        got := Some(data[pos..][..n]);
        pos := pos + n;
      } else {
        got, pos := None, |data|;
      }
    }

    /** readMessage */
    method ReadMessage() returns (msg: Option<bytes>)
      requires Valid()
      modifies this
      ensures Valid()
      ensures match Parse(old(Left()))
        case Message(m, rest) => msg == Some(m) && Left() == rest
        case Short => msg == None
    {
      var header := ReadFull(4);
      if header.None? { return None; }
      var n := Num24(header.value[1..4]);
      if n == 0 { return Some([]); }
      msg := ReadFull(n);
    }

    /** Reading until an error gives all the messages of the stream. */
    method ReadAll() returns (msgs: seq<bytes>)
      requires Valid()
      modifies this
      ensures msgs == Messages(old(Left()))
    {
      msgs := [];
      while true
        invariant Valid() && msgs + Messages(Left()) == Messages(old(Left()))
        decreases |Left()|
      {
        var msg := ReadMessage();
        if msg.None? { return; }
        msgs := msgs + [msg.value];
      }
    }
  }

  /** A socket that takes `room` bytes in all before it fails. */
  class Sink {
    const room: nat
    var wire: bytes

    ghost predicate Valid()
      reads this
    {
      |wire| <= room
    }

    constructor (room: nat)
      ensures Valid() && wire == [] && this.room == room
    {
      this.room, wire := room, [];
    }

    /** writeMessage: a message too large for its frame's limit is refused before anything is written;
        otherwise the frame goes out, cut short only by a failing socket. */
    method WriteMessage(msg: bytes) returns (ok: bool)
      requires Valid()
      modifies this
      ensures Valid()
      ensures |msg| > MAX_MESSAGE ==> !ok && wire == old(wire)
      ensures |msg| <= MAX_MESSAGE ==> (ok <==> |old(wire)| + |Frame(msg)| <= room)
      ensures |msg| <= MAX_MESSAGE && !ok ==>
        |wire| == room && exists k: nat :: k < |Frame(msg)| && wire == old(wire) + Frame(msg)[..k]
      ensures ok ==> wire == old(wire) + Frame(msg)
    {
      if |msg| > MAX_MESSAGE { return false; }
      var k := Min(|Frame(msg)|, room - |wire|);
      wire := wire + Frame(msg)[..k];
      ok := k == |Frame(msg)|;
    }
  }
}
