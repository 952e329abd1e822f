/**
 * The wait loops of getCapabilities, setScalarBoolCapability and
 * waitingForAuthenticateOk, as one function over the bytes still to be read.
 * A tolerant loop reads past NOTICE frames and unknown types; the strict one
 * (waitingForAuthenticateOk) reads past NOTICE frames only.
 */
module Exchanges {
  import opened Wrappers
  import opened Wire
  import opened Messages
  import opened Notices

  /** Why a wait loop stopped. */
  datatype Stop =
    | Reply(pkt: Packet)       // the awaited reply type arrived
    | ErrorFrame(pkt: Packet)  // an ERROR frame arrived
    | ReadFailed(err: ReadError) // readMsg failed and closed the connection
    | BadNotice(pkt: Packet)   // processNotice hit log.Fatalf on this NOTICE
    | Unexpected(pkt: Packet)  // strict loop only: log.Fatalf on any other type

  /** How a wait loop ended, the notices it reported on the way, and the bytes left unread. */
  datatype Wait = Wait(stop: Stop, notices: seq<NoticeReport>, rest: Bytes)

  function Prepend(ns: seq<NoticeReport>, w: Wait): Wait
  {
    w.(notices := ns + w.notices)
  }

  function Await(input: Bytes, minSize: nat, codec: Codec, expected: int, tolerant: bool): (w: Wait)
    requires minSize >= 1
    ensures |w.rest| <= |input|
    ensures tolerant ==> !w.stop.Unexpected?
    ensures w.stop.Reply? ==> w.stop.pkt.msgType == expected
    ensures w.stop.ErrorFrame? ==> w.stop.pkt.msgType == ServerError
    ensures w.stop.BadNotice? ==> w.stop.pkt.msgType == ServerNotice && DecodeNotice(codec, w.stop.pkt.payload).None?
    decreases |input|
  {
    var step := ReadFrame(input, minSize);
    if step.Lost? then Wait(ReadFailed(step.err), [], step.rest)
    else
      var p := step.pkt;
      if p.msgType == expected then Wait(Reply(p), [], step.rest)
      else if p.msgType == ServerError then Wait(ErrorFrame(p), [], step.rest)
      else if p.msgType == ServerNotice then
        match DecodeNotice(codec, p.payload)
        case None => Wait(BadNotice(p), [], step.rest)
        case Some(n) => Prepend([n], Await(step.rest, minSize, codec, expected, tolerant))
      else if tolerant then Await(step.rest, minSize, codec, expected, tolerant)
      else Wait(Unexpected(p), [], step.rest)
  }

  /** a is a suffix of b. */
  predicate SuffixOf(a: Bytes, b: Bytes)
  {
    |a| <= |b| && b[|b| - |a|..] == a
  }

  lemma SuffixTrans(a: Bytes, b: Bytes, c: Bytes)
    requires SuffixOf(a, b) && SuffixOf(b, c)
    ensures SuffixOf(a, c)
  {
    assert c[|c| - |b|..][|b| - |a|..] == c[|c| - |a|..];
  }

  /** A wait loop only consumes: what it leaves unread is a suffix of its input. */
  lemma {:induction false} AwaitLeavesSuffix(input: Bytes, minSize: nat, codec: Codec, expected: int, tolerant: bool)
    requires minSize >= 1
    ensures SuffixOf(Await(input, minSize, codec, expected, tolerant).rest, input)
    decreases |input|
  {
    var w := Await(input, minSize, codec, expected, tolerant);
    var step := ReadFrame(input, minSize);
    ReadFrameConsumes(input, minSize);
    assert SuffixOf(step.rest, input);
    if step.Got? {
      var p := step.pkt;
      var w2 := Await(step.rest, minSize, codec, expected, tolerant);
      if Passable(p, codec, expected, tolerant) {
        AwaitPassStep(input, minSize, codec, expected, tolerant);
        AwaitLeavesSuffix(step.rest, minSize, codec, expected, tolerant);
        SuffixTrans(w2.rest, step.rest, input);
      }
    }
  }

  /** A frame that encodes and decodes without loss on a connection with this minimum. */
  predicate Fits(p: Packet, minSize: nat)
  {
    0 <= p.msgType < 256 && |p.payload| + 1 < Two32 && minSize <= |p.payload| + 1
  }

  /** The reply type a loop waits for is neither ERROR nor NOTICE. */
  predicate AwaitsReply(expected: int)
  {
    0 <= expected < 256 && expected != ServerError && expected != ServerNotice
  }

  /** A frame the loop reads past: a NOTICE that decodes, or (tolerant loops) any other type. */
  predicate Passable(p: Packet, codec: Codec, expected: int, tolerant: bool)
  {
    p.msgType != expected && p.msgType != ServerError &&
    (if p.msgType == ServerNotice then DecodeNotice(codec, p.payload).Some? else tolerant)
  }

  /** The bytes of a run of frames. */
  function Frames(ps: seq<Packet>): Bytes
  {
    if ps == [] then [] else EncodeFrame(ps[0].msgType, ps[0].payload) + Frames(ps[1..])
  }

  /** The notice a passable frame reports: its decoded notice, or none for another type. */
  function NoticeOf(p: Packet, codec: Codec): seq<NoticeReport>
  {
    if p.msgType == ServerNotice && DecodeNotice(codec, p.payload).Some? then [DecodeNotice(codec, p.payload).value] else []
  }

  /** The notices a run of passable frames reports, in order. */
  function NoticesOf(ps: seq<Packet>, codec: Codec): seq<NoticeReport>
  {
    if ps == [] then [] else NoticeOf(ps[0], codec) + NoticesOf(ps[1..], codec)
  }

  lemma PrependTwice(a: seq<NoticeReport>, b: seq<NoticeReport>, w: Wait)
    ensures Prepend(a, Prepend(b, w)) == Prepend(a + b, w)
  {
    assert a + (b + w.notices) == (a + b) + w.notices;
  }

  /** One step of the loop over whatever input: a passable first frame is consumed and its notice, if any, reported. */
  lemma AwaitPassStep(input: Bytes, minSize: nat, codec: Codec, expected: int, tolerant: bool)
    requires minSize >= 1 && ReadFrame(input, minSize).Got?
    requires Passable(ReadFrame(input, minSize).pkt, codec, expected, tolerant)
    ensures Await(input, minSize, codec, expected, tolerant)
      == Prepend(NoticeOf(ReadFrame(input, minSize).pkt, codec), Await(ReadFrame(input, minSize).rest, minSize, codec, expected, tolerant))
  {
    var w := Await(ReadFrame(input, minSize).rest, minSize, codec, expected, tolerant);
    assert [] + w.notices == w.notices;
  }

  /** The awaited reply ends the loop at once and leaves what follows unread. */
  lemma AwaitReply(payload: Bytes, rest: Bytes, minSize: nat, codec: Codec, expected: int, tolerant: bool)
    requires minSize >= 1 && AwaitsReply(expected) && Fits(Packet(expected, payload), minSize)
    ensures Await(EncodeFrame(expected, payload) + rest, minSize, codec, expected, tolerant)
      == Wait(Reply(Packet(expected, payload)), [], rest)
  {
    FrameRoundTrip(expected, payload, rest, minSize);
  }

  /** An ERROR frame ends the loop at once and leaves what follows unread. */
  lemma AwaitError(payload: Bytes, rest: Bytes, minSize: nat, codec: Codec, expected: int, tolerant: bool)
    requires minSize >= 1 && AwaitsReply(expected) && Fits(Packet(ServerError, payload), minSize)
    ensures Await(EncodeFrame(ServerError, payload) + rest, minSize, codec, expected, tolerant)
      == Wait(ErrorFrame(Packet(ServerError, payload)), [], rest)
  {
    FrameRoundTrip(ServerError, payload, rest, minSize);
  }

  /** A NOTICE that decodes never ends the loop: it is reported and the loop goes on. */
  lemma AwaitNotice(payload: Bytes, rest: Bytes, minSize: nat, codec: Codec, expected: int, tolerant: bool)
    requires minSize >= 1 && AwaitsReply(expected) && Fits(Packet(ServerNotice, payload), minSize)
    requires DecodeNotice(codec, payload).Some?
    ensures Await(EncodeFrame(ServerNotice, payload) + rest, minSize, codec, expected, tolerant)
      == Prepend([DecodeNotice(codec, payload).value], Await(rest, minSize, codec, expected, tolerant))
  {
    FrameRoundTrip(ServerNotice, payload, rest, minSize);
  }

  /** A NOTICE that does not decode ends the loop in log.Fatalf. */
  lemma AwaitBadNotice(payload: Bytes, rest: Bytes, minSize: nat, codec: Codec, expected: int, tolerant: bool)
    requires minSize >= 1 && AwaitsReply(expected) && Fits(Packet(ServerNotice, payload), minSize)
    requires DecodeNotice(codec, payload).None?
    ensures Await(EncodeFrame(ServerNotice, payload) + rest, minSize, codec, expected, tolerant)
      == Wait(BadNotice(Packet(ServerNotice, payload)), [], rest)
  {
    FrameRoundTrip(ServerNotice, payload, rest, minSize);
  }

  /** A tolerant loop reads past any other message type. */
  lemma AwaitSkipsUnknown(msgType: int, payload: Bytes, rest: Bytes, minSize: nat, codec: Codec, expected: int)
    requires minSize >= 1 && AwaitsReply(expected) && Fits(Packet(msgType, payload), minSize)
    requires msgType != expected && msgType != ServerError && msgType != ServerNotice
    ensures Await(EncodeFrame(msgType, payload) + rest, minSize, codec, expected, true)
      == Await(rest, minSize, codec, expected, true)
  {
    FrameRoundTrip(msgType, payload, rest, minSize);
  }

  /** The strict loop stops at any other message type. */
  lemma StrictStopsAtUnknown(msgType: int, payload: Bytes, rest: Bytes, minSize: nat, codec: Codec, expected: int)
    requires minSize >= 1 && AwaitsReply(expected) && Fits(Packet(msgType, payload), minSize)
    requires msgType != expected && msgType != ServerError && msgType != ServerNotice
    ensures Await(EncodeFrame(msgType, payload) + rest, minSize, codec, expected, false)
      == Wait(Unexpected(Packet(msgType, payload)), [], rest)
  {
    FrameRoundTrip(msgType, payload, rest, minSize);
  }

  /** One passable frame is consumed without ending the loop. */
  lemma AwaitPastOne(p: Packet, tail: Bytes, minSize: nat, codec: Codec, expected: int, tolerant: bool)
    requires minSize >= 1 && AwaitsReply(expected)
    requires Fits(p, minSize) && Passable(p, codec, expected, tolerant)
    ensures Await(EncodeFrame(p.msgType, p.payload) + tail, minSize, codec, expected, tolerant)
      == Prepend(NoticeOf(p, codec), Await(tail, minSize, codec, expected, tolerant))
  {
    if p.msgType == ServerNotice {
      AwaitNotice(p.payload, tail, minSize, codec, expected, tolerant);
    } else {
      AwaitSkipsUnknown(p.msgType, p.payload, tail, minSize, codec, expected);
      var w := Await(tail, minSize, codec, expected, tolerant);
      assert [] + w.notices == w.notices;
    }
  }

  /**
   * A run of passable frames is consumed without ending the loop; exactly the
   * notices among them are reported, in order.
   */
  lemma {:induction false} AwaitPast(ps: seq<Packet>, rest: Bytes, minSize: nat, codec: Codec, expected: int, tolerant: bool)
    requires minSize >= 1 && AwaitsReply(expected)
    requires forall i :: 0 <= i < |ps| ==> Fits(ps[i], minSize) && Passable(ps[i], codec, expected, tolerant)
    ensures Await(Frames(ps) + rest, minSize, codec, expected, tolerant)
      == Prepend(NoticesOf(ps, codec), Await(rest, minSize, codec, expected, tolerant))
  {
    var w := Await(rest, minSize, codec, expected, tolerant);
    if ps == [] {
      assert Frames(ps) + rest == rest;
      assert [] + w.notices == w.notices;
    } else {
      var tail := Frames(ps[1..]) + rest;
      assert Frames(ps) + rest == EncodeFrame(ps[0].msgType, ps[0].payload) + tail;
      AwaitPastOne(ps[0], tail, minSize, codec, expected, tolerant);
      AwaitPast(ps[1..], rest, minSize, codec, expected, tolerant);
      PrependTwice(NoticeOf(ps[0], codec), NoticesOf(ps[1..], codec), w);
    }
  }
}
