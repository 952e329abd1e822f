/**
 * The control-plane operations of one connection as functions of its state:
 * writeProtobufPacket, getCapabilities, setScalarBoolCapability,
 * processErrorMsg, waitingForAuthenticateOk and AuthenticateMySQL41.
 * The class in module Connection is proved to follow these.
 */
module Session {
  import opened Wrappers
  import opened Wire
  import opened Values
  import opened Messages
  import opened Render
  import opened Notices
  import opened Exchanges

  /**
   * What one connection holds: the bytes the server sent that are still unread,
   * the bytes written, whether it was closed, the mc.pb slot, the capability
   * table (only ever appended to) and the notices reported to the debug sink.
   */
  datatype State = State(
    input: Bytes,
    output: Bytes,
    closed: bool,
    pb: Option<Packet>,
    capabilities: seq<Entry>,
    noticeLog: seq<NoticeReport>)

  /**
   * A connection only moves forward: unread input is consumed, never given
   * back; the bytes written, the notices reported and the capability table are
   * only appended to; and a closed connection stays closed.
   */
  predicate Advances(st: State, st': State)
  {
    |st'.input| <= |st.input| && st.output <= st'.output && st.noticeLog <= st'.noticeLog &&
    st.capabilities <= st'.capabilities && (st.closed ==> st'.closed)
  }

  /** What netConn.Write answered: how many bytes it took and whether it returned an error. */
  datatype WriteReply = WriteReply(n: nat, failed: bool)

  /** The answers to writeProtobufPacket's two Write calls, header then payload. */
  datatype WriteReplies = WriteReplies(header: WriteReply, body: WriteReply)

  datatype WriteError =
    | MalformedPacket       // ErrMalformPkt: nil packet or type above 255
    | PacketTooLarge        // ErrPktTooLarge
    | HeaderWriteFailed(n: nat)
    | BodyWriteFailed(n: nat)

  /** The error writeProtobufPacket returns, the bytes that reached the wire, and whether it closed the connection. */
  datatype WriteEffect = WriteEffect(err: Option<WriteError>, sent: Bytes, closes: bool)

  /** The bytes a Write call took. */
  function Accepted(data: Bytes, reply: WriteReply): (r: Bytes)
    ensures |r| <= |data| && r == data[..|r|]
  {
    data[..if reply.n < |data| then reply.n else |data|]
  }

  function WriteOutcome(p: Option<Packet>, maxAllowed: int, replies: WriteReplies): (e: WriteEffect)
    ensures e.closes <==> e.err == Some(MalformedPacket)
    ensures e.closes <==> p.None? || p.value.msgType > 255
    ensures e.err == Some(MalformedPacket) || e.err == Some(PacketTooLarge) ==> e.sent == []
    ensures !e.closes ==> e.sent <= EncodeFrame(p.value.msgType, p.value.payload)
    ensures e.err.None? ==> |e.sent| >= HeaderSize + 1
  {
    if p.None? || p.value.msgType > 255 then WriteEffect(Some(MalformedPacket), [], true)
    else
      var pktLen := |p.value.payload| + 1;
      if pktLen > maxAllowed then WriteEffect(Some(PacketTooLarge), [], false)
      else
        var frame := EncodeFrame(p.value.msgType, p.value.payload);
        var head := frame[..HeaderSize + 1];
        if replies.header.failed || replies.header.n != HeaderSize + 1 then
          WriteEffect(Some(HeaderWriteFailed(replies.header.n)), Accepted(head, replies.header), false)
        else
          var body := Accepted(p.value.payload, replies.body);
          assert frame == head + p.value.payload;
          WriteEffect(if replies.body.failed && replies.body.n != pktLen then Some(BodyWriteFailed(replies.body.n)) else None,
                      head + body, false)
  }

  /** A nil packet or a type above 255 closes the connection and writes nothing. */
  lemma WriteRejectsBadType(p: Option<Packet>, maxAllowed: int, replies: WriteReplies)
    requires p.None? || p.value.msgType > 255
    ensures WriteOutcome(p, maxAllowed, replies) == WriteEffect(Some(MalformedPacket), [], true)
  {
  }

  /** A packet over the limit writes nothing and leaves the connection open. */
  lemma WriteRejectsTooLarge(p: Packet, maxAllowed: int, replies: WriteReplies)
    requires p.msgType <= 255 && |p.payload| + 1 > maxAllowed
    ensures WriteOutcome(Some(p), maxAllowed, replies) == WriteEffect(Some(PacketTooLarge), [], false)
  {
  }

  /** The sink taking every byte without error. */
  predicate FullWrite(p: Packet, replies: WriteReplies)
  {
    replies.header == WriteReply(HeaderSize + 1, false) && replies.body == WriteReply(|p.payload|, false)
  }

  /**
   * A packet that passes both guards and is fully written puts exactly its frame
   * on the wire, and readMsg's rule reads that frame back as the same packet.
   */
  lemma WriteSendsFrame(p: Packet, maxAllowed: int, replies: WriteReplies, rest: Bytes, minSize: nat)
    requires 0 <= p.msgType <= 255 && |p.payload| + 1 <= maxAllowed && FullWrite(p, replies)
    requires |p.payload| + 1 < Two32 && 1 <= minSize <= |p.payload| + 1
    ensures WriteOutcome(Some(p), maxAllowed, replies) == WriteEffect(None, EncodeFrame(p.msgType, p.payload), false)
    ensures ReadFrame(WriteOutcome(Some(p), maxAllowed, replies).sent + rest, minSize) == Got(p, rest)
  {
    assert Accepted(p.payload, replies.body) == p.payload;
    FrameRoundTrip(p.msgType, p.payload, rest, minSize);
  }

  /**
   * The payload check `err != nil && n != pktLen` compares against the frame
   * length, not the payload length: for every count a writer can return it
   * reduces to `err != nil`, so a short write reported without an error passes.
   */
  lemma BodyCheckIgnoresCount(p: Packet, maxAllowed: int, replies: WriteReplies)
    requires 0 <= p.msgType <= 255 && |p.payload| + 1 <= maxAllowed
    requires replies.header == WriteReply(HeaderSize + 1, false) && replies.body.n <= |p.payload|
    ensures WriteOutcome(Some(p), maxAllowed, replies).err.Some? <==> replies.body.failed
  {
  }

  /** A negative type passes the `> 255` guard and goes out as its low byte. */
  lemma NegativeTypeWraps(t: int, payload: Bytes, maxAllowed: int, replies: WriteReplies, minSize: nat)
    requires t < 0 && |payload| + 1 <= maxAllowed && FullWrite(Packet(t, payload), replies)
    requires |payload| + 1 < Two32 && 1 <= minSize <= |payload| + 1
    ensures WriteOutcome(Some(Packet(t, payload)), maxAllowed, replies).err.None?
    ensures ReadFrame(WriteOutcome(Some(Packet(t, payload)), maxAllowed, replies).sent, minSize)
      == Got(Packet(t % 256, payload), [])
  {
    var e := WriteOutcome(Some(Packet(t, payload)), maxAllowed, replies);
    assert Accepted(payload, replies.body) == payload;
    assert e.sent == EncodeFrame(t % 256, payload);
    assert e.sent + [] == e.sent;
    FrameRoundTrip(t % 256, payload, [], minSize);
  }

  /** Why processErrorMsg returned an error. */
  datatype ErrorMsgFailure = NoPacket | NoPayload | Undecodable

  datatype Failure =
    | WriteFailed(write: WriteError)
    | ConnectionLost(read: ReadError)        // driver.ErrBadConn from readMsg
    | ServerReported(text: string)           // errorText of the server's ERROR frame
    | CapabilitySetFailed(detail: Option<ErrorMsgFailure>)  // "setScalarBoolCapability failed: %v"
    | EmptyPayload                           // "BUG: Empty pb.payload"
    | UndecodablePayload                     // unmarshaling error with capabilities
    | MarshalFailed
    | UnexpectedMessage(got: string, expected: string)
    | BadNonceLength(n: nat)
    | ScrambleFailed                         // GetNextAuthData gave an error

  /** log.Fatal / log.Fatalf, or a nil-pointer panic. */
  datatype Crash = FatalLog | NilPointer

  datatype Status = Success | Failed(failure: Failure) | Crashed(crash: Crash)

  function AfterWrite(st: State, e: WriteEffect): State
  {
    st.(output := st.output + e.sent, closed := st.closed || e.closes)
  }

  /** mc.pb after a tolerant loop: the NOTICE branch stores the frame and processNotice clears it. */
  function PbAfterTolerant(pb: Option<Packet>, w: Wait): Option<Packet>
  {
    if w.stop.BadNotice? then Some(w.stop.pkt) else if |w.notices| > 0 then None else pb
  }

  /** mc.pb after waitingForAuthenticateOk: the last frame read, nil once readMsg failed. */
  function PbAfterStrict(w: Wait): Option<Packet>
  {
    if w.stop.ReadFailed? then None else Some(w.stop.pkt)
  }

  function AfterWait(st: State, w: Wait, pb: Option<Packet>): State
  {
    st.(input := w.rest, noticeLog := st.noticeLog + w.notices, closed := st.closed || w.stop.ReadFailed?, pb := pb)
  }

  /** errorMsg on an ERROR frame's payload: log.Fatal when it does not decode, else its errorText. */
  function ErrorFrameStatus(codec: Codec, p: Packet): (s: Status)
    ensures s != Success
    ensures s.Crashed? <==> codec.error(p.payload).None?
    ensures s.Failed? ==> s.failure == ServerReported(ErrorText(codec.error(p.payload)))
  {
    match codec.error(p.payload)
    case None => Crashed(FatalLog)
    case Some(m) => Failed(ServerReported(ErrorText(Some(m))))
  }

  /** processErrorMsg: decodes whatever mc.pb holds and clears it only when that succeeds. */
  function ProcessErrorMsg(codec: Codec, pb: Option<Packet>): (r: (Option<ErrorMsgFailure>, Option<Packet>))
    ensures r.0.None? <==> pb.Some? && |pb.value.payload| > 0 && codec.error(pb.value.payload).Some?
    ensures r.1 == if r.0.None? then None else pb
  {
    match pb
    case None => (Some(NoPacket), None)
    case Some(q) =>
      if |q.payload| == 0 then (Some(NoPayload), pb)
      else if codec.error(q.payload).None? then (Some(Undecodable), pb)
      else (None, None)
  }

  /** getCapabilities writes only its request, and its state only moves forward. */
  function GetCapabilities(st: State, minSize: nat, maxAllowed: int, codec: Codec, replies: WriteReplies): (r: (Status, State))
    requires minSize >= 1
    ensures Advances(st, r.1)
    ensures r.1.output == st.output + WriteOutcome(Some(Packet(ClientConCapabilitiesGet, [])), maxAllowed, replies).sent
  {
    var e := WriteOutcome(Some(Packet(ClientConCapabilitiesGet, [])), maxAllowed, replies);
    var st1 := AfterWrite(st, e);
    if e.err.Some? then (Failed(WriteFailed(e.err.value)), st1)
    else CapabilitiesReply(st1, Await(st1.input, minSize, codec, ServerConnCapabilities, true), codec)
  }

  /** getCapabilities once its wait loop has stopped. */
  function CapabilitiesReply(st1: State, w: Wait, codec: Codec): (r: (Status, State))
  {
    var st2 := AfterWait(st1, w, PbAfterTolerant(st1.pb, w));
    if w.stop.ReadFailed? then (Failed(ConnectionLost(w.stop.err)), st2)
    else if w.stop.ErrorFrame? then (ErrorFrameStatus(codec, w.stop.pkt), st2)
    else if w.stop.Reply? then CapabilitiesFrom(st2, w.stop.pkt.payload, codec)
    else (Crashed(FatalLog), st2)
  }

  /** The CONN_CAPABILITIES payload: empty and undecodable are errors, else every capability is recorded. */
  function CapabilitiesFrom(st: State, payload: Bytes, codec: Codec): (r: (Status, State))
  {
    if |payload| == 0 then (Failed(EmptyPayload), st)
    else match codec.capabilities(payload)
      case None => (Failed(UndecodablePayload), st)
      case Some(caps) =>
        var a := Absorb(caps);
        (if a.panicked then Crashed(NilPointer) else Success, st.(capabilities := st.capabilities + a.entries))
  }

  function SetScalarBoolCapability(st: State, minSize: nat, maxAllowed: int, codec: Codec,
                                   name: string, value: bool, replies: WriteReplies): (r: (Status, State))
    requires minSize >= 1
    ensures Advances(st, r.1)
    ensures r.1.capabilities == st.capabilities
  {
    match codec.marshalCapabilitiesSet([Capability(name, Some(BoolAny(value)))])
    case None => (Failed(MarshalFailed), st)
    case Some(payload) =>
      var e := WriteOutcome(Some(Packet(ClientConCapabilitiesSet, payload)), maxAllowed, replies);
      var st1 := AfterWrite(st, e);
      if e.err.Some? then (Failed(WriteFailed(e.err.value)), st1)
      else CapabilitySetReply(st1, Await(st1.input, minSize, codec, ServerOk, true), codec)
  }

  /** setScalarBoolCapability once its wait loop has stopped. */
  function CapabilitySetReply(st1: State, w: Wait, codec: Codec): (r: (Status, State))
  {
    var st2 := AfterWait(st1, w, PbAfterTolerant(st1.pb, w));
    if w.stop.ReadFailed? then (Failed(ConnectionLost(w.stop.err)), st2)
    else if w.stop.Reply? then (Success, st2)
    else if w.stop.ErrorFrame? then
      var (detail, pb) := ProcessErrorMsg(codec, st2.pb);
      (Failed(CapabilitySetFailed(detail)), st2.(pb := pb))
    else (Crashed(FatalLog), st2)
  }

  /** waitingForAuthenticateOk writes nothing, leaves the capability table alone, and on success holds SESS_AUTHENTICATE_OK in mc.pb. */
  function WaitingForAuthenticateOk(st: State, minSize: nat, codec: Codec): (r: (Status, State))
    requires minSize >= 1
    ensures Advances(st, r.1)
    ensures r.1.output == st.output && r.1.capabilities == st.capabilities
    ensures r.0 == Success ==> r.1.pb.Some? && r.1.pb.value.msgType == ServerSessAuthenticateOk
  {
    AuthenticateOkReply(st, Await(st.input, minSize, codec, ServerSessAuthenticateOk, false), codec)
  }

  /** waitingForAuthenticateOk once its loop has stopped. */
  function AuthenticateOkReply(st: State, w: Wait, codec: Codec): (r: (Status, State))
  {
    var st2 := AfterWait(st, w, PbAfterStrict(w));
    if w.stop.ReadFailed? then (Failed(ConnectionLost(w.stop.err)), st2)
    else if w.stop.Reply? then (Success, st2)
    else if w.stop.ErrorFrame? then (ErrorFrameStatus(codec, w.stop.pkt), st2)
    else (Crashed(FatalLog), st2)
  }

  /** NewMySQL41's two outputs: the initial auth data, and the scramble of a server nonce (which may fail). */
  datatype AuthInfo = AuthInfo(initial: Bytes, next: Bytes -> Option<Bytes>)

  const NonceLength: nat := 20
  const MechName: string := "MYSQL41"

  /** writeSessAuthenticateStart, whose error AuthenticateMySQL41 discards. */
  function SendAuthenticateStart(st: State, maxAllowed: int, codec: Codec, auth: AuthInfo, replies: WriteReplies): (st1: State)
    ensures Advances(st, st1)
    ensures st1.input == st.input && st1.noticeLog == st.noticeLog && st1.capabilities == st.capabilities
    ensures codec.marshalAuthStart(MechName, auth.initial).None? ==> st1 == st
  {
    match codec.marshalAuthStart(MechName, auth.initial)
    case None => st
    case Some(q) => AfterWrite(st, WriteOutcome(Some(Packet(ClientSessAuthenticateStart, q)), maxAllowed, replies))
  }

  function AuthenticateMySQL41(st: State, minSize: nat, maxAllowed: int, codec: Codec, auth: AuthInfo,
                               start: WriteReplies, cont: WriteReplies): (r: (Status, State))
    requires minSize >= 1
    ensures Advances(st, r.1)
    ensures r.1.capabilities == st.capabilities
    ensures r.0 == Success ==> r.1.pb.None?
  {
    var st1 := SendAuthenticateStart(st, maxAllowed, codec, auth, start);
    var step := ReadFrame(st1.input, minSize);
    if step.Lost? then (Failed(ConnectionLost(step.err)), st1.(input := step.rest, closed := true))
    else
      var p := step.pkt;
      var st2 := st1.(input := step.rest);
      if p.msgType != ServerSessAuthenticateContinue then
        (Failed(UnexpectedMessage(PrintableMsgTypeIn(p.msgType), PrintableMsgTypeIn(ServerSessAuthenticateContinue))), st2)
      else match codec.authContinue(p.payload)
        case None => (Crashed(FatalLog), st2)
        case Some(nonce) => AnswerNonce(st2, minSize, maxAllowed, codec, auth, nonce, cont)
  }

  /** The exchange from the server's nonce on: scramble, send SESS_AUTHENTICATE_CONTINUE, wait for SESS_AUTHENTICATE_OK. */
  function AnswerNonce(st: State, minSize: nat, maxAllowed: int, codec: Codec, auth: AuthInfo,
                       nonce: Bytes, cont: WriteReplies): (r: (Status, State))
    requires minSize >= 1
    ensures Advances(st, r.1)
    ensures r.1.capabilities == st.capabilities
    ensures r.0 == Success ==> r.1.pb.None?
    ensures |nonce| != NonceLength ==> r == (Failed(BadNonceLength(|nonce|)), st)
  {
    if |nonce| != NonceLength then (Failed(BadNonceLength(|nonce|)), st)
    else match auth.next(nonce)
      case None => (Failed(ScrambleFailed), st)
      case Some(response) =>
        match codec.marshalAuthContinue(response)
        case None => (Failed(MarshalFailed), st)
        case Some(q) =>
          var e := WriteOutcome(Some(Packet(ClientSessAuthenticateContinue, q)), maxAllowed, cont);
          var st3 := AfterWrite(st, e);
          if e.err.Some? then (Failed(WriteFailed(e.err.value)), st3)
          else
            var (s4, st4) := WaitingForAuthenticateOk(st3, minSize, codec);
            if s4 != Success then (s4, st4)
            else match codec.authOk(st4.pb.value.payload)
              case None => (Crashed(FatalLog), st4)
              case Some(_) => (Success, st4.(pb := None))
  }

  /** waitingForAuthenticateOk succeeds exactly when its loop met SESS_AUTHENTICATE_OK, and leaves that frame in mc.pb. */
  lemma AuthenticateOkLeavesFrame(st: State, minSize: nat, codec: Codec)
    requires minSize >= 1
    ensures var w := Await(st.input, minSize, codec, ServerSessAuthenticateOk, false);
      var r := WaitingForAuthenticateOk(st, minSize, codec);
      (r.0 == Success <==> w.stop.Reply?) &&
      (r.0 == Success ==> r.1.pb == Some(w.stop.pkt) && w.stop.pkt.msgType == ServerSessAuthenticateOk)
  {
  }

  /** Every frame of a run can be read past by the loop waiting for `expected`. */
  predicate AllPassable(ps: seq<Packet>, minSize: nat, codec: Codec, expected: int, tolerant: bool)
  {
    forall i :: 0 <= i < |ps| ==> Fits(ps[i], minSize) && Passable(ps[i], codec, expected, tolerant)
  }

  /** The loop meets a run of passable frames and then one decisive frame. */
  lemma AwaitAfterRun(ps: seq<Packet>, last: Packet, rest: Bytes, minSize: nat, codec: Codec, expected: int, tolerant: bool)
    requires minSize >= 1 && AwaitsReply(expected) && AllPassable(ps, minSize, codec, expected, tolerant)
    requires Fits(last, minSize) && (last.msgType == expected || last.msgType == ServerError)
    ensures Await(Frames(ps) + EncodeFrame(last.msgType, last.payload) + rest, minSize, codec, expected, tolerant)
      == Wait(if last.msgType == expected then Reply(last) else ErrorFrame(last), NoticesOf(ps, codec), rest)
  {
    var tail := EncodeFrame(last.msgType, last.payload) + rest;
    assert Frames(ps) + EncodeFrame(last.msgType, last.payload) + rest == Frames(ps) + tail;
    AwaitPast(ps, tail, minSize, codec, expected, tolerant);
    if last.msgType == expected {
      AwaitReply(last.payload, rest, minSize, codec, expected, tolerant);
    } else {
      AwaitError(last.payload, rest, minSize, codec, expected, tolerant);
    }
    assert NoticesOf(ps, codec) + [] == NoticesOf(ps, codec);
  }

  /** The capability request goes out whole when the sink takes every byte. */
  lemma CapabilitiesGetSent(maxAllowed: int, replies: WriteReplies)
    requires 1 <= maxAllowed && FullWrite(Packet(ClientConCapabilitiesGet, []), replies)
    ensures WriteOutcome(Some(Packet(ClientConCapabilitiesGet, [])), maxAllowed, replies)
      == WriteEffect(None, EncodeFrame(ClientConCapabilitiesGet, []), false)
  {
    assert Accepted([], replies.body) == [];
  }

  /**
   * getCapabilities sends CON_CAPABILITIES_GET, reads past notices and unknown
   * frames, reports each notice, and appends what the classification loop adds
   * from the CONN_CAPABILITIES reply (a panic there still keeps the entries
   * added before it).
   */
  lemma GetCapabilitiesAfterRun(st: State, minSize: nat, maxAllowed: int, codec: Codec, replies: WriteReplies,
                                ps: seq<Packet>, payload: Bytes, rest: Bytes, caps: seq<Capability>)
    requires minSize >= 1 && 1 <= maxAllowed && FullWrite(Packet(ClientConCapabilitiesGet, []), replies)
    requires AllPassable(ps, minSize, codec, ServerConnCapabilities, true)
    requires Fits(Packet(ServerConnCapabilities, payload), minSize) && |payload| > 0
    requires codec.capabilities(payload) == Some(caps)
    requires st.input == Frames(ps) + EncodeFrame(ServerConnCapabilities, payload) + rest
    ensures GetCapabilities(st, minSize, maxAllowed, codec, replies).0
      == if Absorb(caps).panicked then Crashed(NilPointer) else Success
    ensures GetCapabilities(st, minSize, maxAllowed, codec, replies).1
      == st.(input := rest,
             output := st.output + EncodeFrame(ClientConCapabilitiesGet, []),
             noticeLog := st.noticeLog + NoticesOf(ps, codec),
             pb := if NoticesOf(ps, codec) == [] then st.pb else None,
             capabilities := st.capabilities + Absorb(caps).entries)
  {
    CapabilitiesGetSent(maxAllowed, replies);
    AwaitAfterRun(ps, Packet(ServerConnCapabilities, payload), rest, minSize, codec, ServerConnCapabilities, true);
  }

  /** When no capability value makes the loop dereference nil, exactly the supported ones are recorded. */
  lemma GetCapabilitiesRecordsSupported(st: State, minSize: nat, maxAllowed: int, codec: Codec, replies: WriteReplies,
                                        ps: seq<Packet>, payload: Bytes, rest: Bytes, caps: seq<Capability>)
    requires minSize >= 1 && 1 <= maxAllowed && FullWrite(Packet(ClientConCapabilitiesGet, []), replies)
    requires AllPassable(ps, minSize, codec, ServerConnCapabilities, true)
    requires Fits(Packet(ServerConnCapabilities, payload), minSize) && |payload| > 0
    requires codec.capabilities(payload) == Some(caps)
    requires forall i :: 0 <= i < |caps| ==> Classify(caps[i].value) != NilDereference
    requires st.input == Frames(ps) + EncodeFrame(ServerConnCapabilities, payload) + rest
    ensures GetCapabilities(st, minSize, maxAllowed, codec, replies).0 == Success
    ensures GetCapabilities(st, minSize, maxAllowed, codec, replies).1.capabilities == st.capabilities + Added(caps)
  {
    GetCapabilitiesAfterRun(st, minSize, maxAllowed, codec, replies, ps, payload, rest, caps);
    AbsorbAddsSupported(caps);
  }

  /** An ERROR reply ends getCapabilities with the server's error text, or log.Fatal when it does not decode. */
  lemma GetCapabilitiesServerError(st: State, minSize: nat, maxAllowed: int, codec: Codec, replies: WriteReplies,
                                   ps: seq<Packet>, payload: Bytes, rest: Bytes)
    requires minSize >= 1 && 1 <= maxAllowed && FullWrite(Packet(ClientConCapabilitiesGet, []), replies)
    requires AllPassable(ps, minSize, codec, ServerConnCapabilities, true)
    requires Fits(Packet(ServerError, payload), minSize)
    requires st.input == Frames(ps) + EncodeFrame(ServerError, payload) + rest
    ensures GetCapabilities(st, minSize, maxAllowed, codec, replies).0
      == if codec.error(payload).None? then Crashed(FatalLog) else Failed(ServerReported(ErrorText(codec.error(payload))))
    ensures GetCapabilities(st, minSize, maxAllowed, codec, replies).1.input == rest
    ensures GetCapabilities(st, minSize, maxAllowed, codec, replies).1.capabilities == st.capabilities
  {
    CapabilitiesGetSent(maxAllowed, replies);
    AwaitAfterRun(ps, Packet(ServerError, payload), rest, minSize, codec, ServerConnCapabilities, true);
  }

  /** A CONN_CAPABILITIES reply with no payload is reported as an error and nothing is recorded. */
  lemma GetCapabilitiesEmptyReply(st: State, maxAllowed: int, codec: Codec, replies: WriteReplies, rest: Bytes)
    requires 1 <= maxAllowed && FullWrite(Packet(ClientConCapabilitiesGet, []), replies)
    requires st.input == EncodeFrame(ServerConnCapabilities, []) + rest
    ensures GetCapabilities(st, 1, maxAllowed, codec, replies).0 == Failed(EmptyPayload)
    ensures GetCapabilities(st, 1, maxAllowed, codec, replies).1.capabilities == st.capabilities
  {
    CapabilitiesGetSent(maxAllowed, replies);
    assert Frames([]) + EncodeFrame(ServerConnCapabilities, []) + rest == st.input;
    AwaitAfterRun([], Packet(ServerConnCapabilities, []), rest, 1, codec, ServerConnCapabilities, true);
  }

  /** When the request cannot be written, getCapabilities reads nothing. */
  lemma GetCapabilitiesWriteFails(st: State, minSize: nat, maxAllowed: int, codec: Codec, replies: WriteReplies)
    requires minSize >= 1
    requires WriteOutcome(Some(Packet(ClientConCapabilitiesGet, [])), maxAllowed, replies).err.Some?
    ensures GetCapabilities(st, minSize, maxAllowed, codec, replies).0.Failed?
    ensures GetCapabilities(st, minSize, maxAllowed, codec, replies).1.input == st.input
    ensures GetCapabilities(st, minSize, maxAllowed, codec, replies).1.noticeLog == st.noticeLog
  {
  }

  /** The capability-set message goes out whole when it fits and the sink takes every byte. */
  lemma CapabilitiesSetSent(payload: Bytes, maxAllowed: int, replies: WriteReplies)
    requires |payload| + 1 <= maxAllowed && FullWrite(Packet(ClientConCapabilitiesSet, payload), replies)
    ensures WriteOutcome(Some(Packet(ClientConCapabilitiesSet, payload)), maxAllowed, replies)
      == WriteEffect(None, EncodeFrame(ClientConCapabilitiesSet, payload), false)
  {
    assert Accepted(payload, replies.body) == payload;
  }

  /** setScalarBoolCapability succeeds on the first OK after any run of notices and unknown frames. */
  lemma SetScalarBoolOk(st: State, minSize: nat, maxAllowed: int, codec: Codec, name: string, value: bool,
                        replies: WriteReplies, payload: Bytes, ps: seq<Packet>, okPayload: Bytes, rest: Bytes)
    requires minSize >= 1
    requires codec.marshalCapabilitiesSet([Capability(name, Some(BoolAny(value)))]) == Some(payload)
    requires |payload| + 1 <= maxAllowed && FullWrite(Packet(ClientConCapabilitiesSet, payload), replies)
    requires AllPassable(ps, minSize, codec, ServerOk, true) && Fits(Packet(ServerOk, okPayload), minSize)
    requires st.input == Frames(ps) + EncodeFrame(ServerOk, okPayload) + rest
    ensures SetScalarBoolCapability(st, minSize, maxAllowed, codec, name, value, replies).0 == Success
    ensures SetScalarBoolCapability(st, minSize, maxAllowed, codec, name, value, replies).1
      == st.(input := rest,
             output := st.output + EncodeFrame(ClientConCapabilitiesSet, payload),
             noticeLog := st.noticeLog + NoticesOf(ps, codec),
             pb := if NoticesOf(ps, codec) == [] then st.pb else None)
  {
    CapabilitiesSetSent(payload, maxAllowed, replies);
    AwaitAfterRun(ps, Packet(ServerOk, okPayload), rest, minSize, codec, ServerOk, true);
  }

  /**
   * An ERROR reply makes setScalarBoolCapability fail whatever the frame holds:
   * processErrorMsg decodes the stale mc.pb, never the ERROR frame just read,
   * so two ERROR frames with different payloads give the same outcome.
   */
  lemma SetScalarBoolErrorIgnoresFrame(st: State, minSize: nat, maxAllowed: int, codec: Codec, name: string, value: bool,
                                       replies: WriteReplies, payload: Bytes, ps: seq<Packet>,
                                       e1: Bytes, e2: Bytes, rest: Bytes)
    requires minSize >= 1
    requires codec.marshalCapabilitiesSet([Capability(name, Some(BoolAny(value)))]) == Some(payload)
    requires |payload| + 1 <= maxAllowed && FullWrite(Packet(ClientConCapabilitiesSet, payload), replies)
    requires AllPassable(ps, minSize, codec, ServerOk, true)
    requires Fits(Packet(ServerError, e1), minSize) && Fits(Packet(ServerError, e2), minSize)
    ensures SetScalarBoolCapability(st.(input := Frames(ps) + EncodeFrame(ServerError, e1) + rest),
                                    minSize, maxAllowed, codec, name, value, replies)
         == SetScalarBoolCapability(st.(input := Frames(ps) + EncodeFrame(ServerError, e2) + rest),
                                    minSize, maxAllowed, codec, name, value, replies)
    ensures SetScalarBoolCapability(st.(input := Frames(ps) + EncodeFrame(ServerError, e1) + rest),
                                    minSize, maxAllowed, codec, name, value, replies).0
         == Failed(CapabilitySetFailed(ProcessErrorMsg(codec, if NoticesOf(ps, codec) == [] then st.pb else None).0))
  {
    CapabilitiesSetSent(payload, maxAllowed, replies);
    AwaitAfterRun(ps, Packet(ServerError, e1), rest, minSize, codec, ServerOk, true);
    AwaitAfterRun(ps, Packet(ServerError, e2), rest, minSize, codec, ServerOk, true);
  }

  /** waitingForAuthenticateOk succeeds on SESS_AUTHENTICATE_OK after a run of notices and leaves that frame in mc.pb. */
  lemma AuthenticateOkAfterNotices(st: State, minSize: nat, codec: Codec, ps: seq<Packet>, okPayload: Bytes, rest: Bytes)
    requires minSize >= 1 && AllPassable(ps, minSize, codec, ServerSessAuthenticateOk, false)
    requires Fits(Packet(ServerSessAuthenticateOk, okPayload), minSize)
    requires st.input == Frames(ps) + EncodeFrame(ServerSessAuthenticateOk, okPayload) + rest
    ensures WaitingForAuthenticateOk(st, minSize, codec)
      == (Success, st.(input := rest, noticeLog := st.noticeLog + NoticesOf(ps, codec),
                       pb := Some(Packet(ServerSessAuthenticateOk, okPayload))))
  {
    AwaitAfterRun(ps, Packet(ServerSessAuthenticateOk, okPayload), rest, minSize, codec, ServerSessAuthenticateOk, false);
  }

  /** An ERROR frame while waiting for SESS_AUTHENTICATE_OK is returned as the server's error text. */
  lemma AuthenticateOkServerError(st: State, minSize: nat, codec: Codec, ps: seq<Packet>, payload: Bytes, rest: Bytes)
    requires minSize >= 1 && AllPassable(ps, minSize, codec, ServerSessAuthenticateOk, false)
    requires Fits(Packet(ServerError, payload), minSize) && codec.error(payload).Some?
    requires st.input == Frames(ps) + EncodeFrame(ServerError, payload) + rest
    ensures WaitingForAuthenticateOk(st, minSize, codec).0 == Failed(ServerReported(ErrorText(codec.error(payload))))
    ensures WaitingForAuthenticateOk(st, minSize, codec).1.input == rest
  {
    AwaitAfterRun(ps, Packet(ServerError, payload), rest, minSize, codec, ServerSessAuthenticateOk, false);
  }

  /** Any other frame type while waiting for SESS_AUTHENTICATE_OK ends in log.Fatalf. */
  lemma AuthenticateOkUnexpected(st: State, minSize: nat, codec: Codec, t: int, payload: Bytes, rest: Bytes)
    requires minSize >= 1 && Fits(Packet(t, payload), minSize)
    requires t != ServerSessAuthenticateOk && t != ServerError && t != ServerNotice
    requires st.input == EncodeFrame(t, payload) + rest
    ensures WaitingForAuthenticateOk(st, minSize, codec).0 == Crashed(FatalLog)
  {
    StrictStopsAtUnknown(t, payload, rest, minSize, codec, ServerSessAuthenticateOk);
  }

  /** The first frame after SESS_AUTHENTICATE_START must be SESS_AUTHENTICATE_CONTINUE; a NOTICE there is not read past. */
  lemma AuthenticateWrongFirstFrame(st: State, minSize: nat, maxAllowed: int, codec: Codec, auth: AuthInfo,
                                    start: WriteReplies, cont: WriteReplies, t: int, payload: Bytes, rest: Bytes)
    requires minSize >= 1 && Fits(Packet(t, payload), minSize) && t != ServerSessAuthenticateContinue
    requires st.input == EncodeFrame(t, payload) + rest
    ensures AuthenticateMySQL41(st, minSize, maxAllowed, codec, auth, start, cont).0
      == Failed(UnexpectedMessage(PrintableMsgTypeIn(t), PrintableMsgTypeIn(ServerSessAuthenticateContinue)))
    ensures AuthenticateMySQL41(st, minSize, maxAllowed, codec, auth, start, cont).1
      == SendAuthenticateStart(st, maxAllowed, codec, auth, start).(input := rest)
  {
    FrameRoundTrip(t, payload, rest, minSize);
  }

  /** A nonce of any length but 20 stops the exchange before the scramble is asked for or anything more is written. */
  lemma AuthenticateBadNonce(st: State, minSize: nat, maxAllowed: int, codec: Codec, auth: AuthInfo,
                             start: WriteReplies, cont: WriteReplies, payload: Bytes, rest: Bytes, nonce: Bytes)
    requires minSize >= 1 && Fits(Packet(ServerSessAuthenticateContinue, payload), minSize)
    requires codec.authContinue(payload) == Some(nonce) && |nonce| != NonceLength
    requires st.input == EncodeFrame(ServerSessAuthenticateContinue, payload) + rest
    ensures AuthenticateMySQL41(st, minSize, maxAllowed, codec, auth, start, cont).0 == Failed(BadNonceLength(|nonce|))
    ensures AuthenticateMySQL41(st, minSize, maxAllowed, codec, auth, start, cont).1
      == SendAuthenticateStart(st, maxAllowed, codec, auth, start).(input := rest)
  {
    FrameRoundTrip(ServerSessAuthenticateContinue, payload, rest, minSize);
  }

  /**
   * The MYSQL41 exchange: after SESS_AUTHENTICATE_CONTINUE with a 20-byte
   * nonce the scrambled response goes out, and SESS_AUTHENTICATE_OK after any
   * notices completes it, clearing mc.pb. Whatever the first write did, the
   * exchange goes on (its error is discarded).
   */
  lemma AuthenticateSucceeds(st: State, minSize: nat, maxAllowed: int, codec: Codec, auth: AuthInfo,
                             start: WriteReplies, cont: WriteReplies, cPayload: Bytes, nonce: Bytes,
                             response: Bytes, q: Bytes, ps: seq<Packet>, okPayload: Bytes, tail: Bytes, rest: Bytes)
    requires minSize >= 1 && Fits(Packet(ServerSessAuthenticateContinue, cPayload), minSize)
    requires codec.authContinue(cPayload) == Some(nonce) && |nonce| == NonceLength
    requires auth.next(nonce) == Some(response) && codec.marshalAuthContinue(response) == Some(q)
    requires |q| + 1 <= maxAllowed && FullWrite(Packet(ClientSessAuthenticateContinue, q), cont)
    requires AllPassable(ps, minSize, codec, ServerSessAuthenticateOk, false)
    requires Fits(Packet(ServerSessAuthenticateOk, okPayload), minSize) && codec.authOk(okPayload).Some?
    requires st.input == EncodeFrame(ServerSessAuthenticateContinue, cPayload) + tail
    requires tail == Frames(ps) + EncodeFrame(ServerSessAuthenticateOk, okPayload) + rest
    ensures var st1 := SendAuthenticateStart(st, maxAllowed, codec, auth, start);
      AuthenticateMySQL41(st, minSize, maxAllowed, codec, auth, start, cont)
        == (Success, st1.(input := rest, output := st1.output + EncodeFrame(ClientSessAuthenticateContinue, q),
                          noticeLog := st.noticeLog + NoticesOf(ps, codec), pb := None))
  {
    var st1 := SendAuthenticateStart(st, maxAllowed, codec, auth, start);
    AuthenticateReachesNonce(st, minSize, maxAllowed, codec, auth, start, cont, cPayload, tail);
    var st2 := st1.(input := tail);
    AnswerNonceSucceeds(st2, minSize, maxAllowed, codec, auth, cont, nonce, response, q, ps, okPayload, rest);
    assert st2.output == st1.output && st2.noticeLog == st.noticeLog;
  }

  /** Once a SESS_AUTHENTICATE_CONTINUE frame carrying a nonce has been read, the rest is AnswerNonce. */
  lemma AuthenticateReachesNonce(st: State, minSize: nat, maxAllowed: int, codec: Codec, auth: AuthInfo,
                                 start: WriteReplies, cont: WriteReplies, cPayload: Bytes, tail: Bytes)
    requires minSize >= 1 && Fits(Packet(ServerSessAuthenticateContinue, cPayload), minSize)
    requires codec.authContinue(cPayload).Some?
    requires st.input == EncodeFrame(ServerSessAuthenticateContinue, cPayload) + tail
    ensures var st1 := SendAuthenticateStart(st, maxAllowed, codec, auth, start);
      AuthenticateMySQL41(st, minSize, maxAllowed, codec, auth, start, cont)
        == AnswerNonce(st1.(input := tail), minSize, maxAllowed, codec, auth, codec.authContinue(cPayload).value, cont)
  {
    FrameRoundTrip(ServerSessAuthenticateContinue, cPayload, tail, minSize);
    assert SendAuthenticateStart(st, maxAllowed, codec, auth, start).input == st.input;
  }

  /** The nonce step: the scrambled answer goes out whole, and SESS_AUTHENTICATE_OK after notices completes it. */
  lemma AnswerNonceSucceeds(st: State, minSize: nat, maxAllowed: int, codec: Codec, auth: AuthInfo, cont: WriteReplies,
                            nonce: Bytes, response: Bytes, q: Bytes, ps: seq<Packet>, okPayload: Bytes, rest: Bytes)
    requires minSize >= 1 && |nonce| == NonceLength
    requires auth.next(nonce) == Some(response) && codec.marshalAuthContinue(response) == Some(q)
    requires |q| + 1 <= maxAllowed && FullWrite(Packet(ClientSessAuthenticateContinue, q), cont)
    requires AllPassable(ps, minSize, codec, ServerSessAuthenticateOk, false)
    requires Fits(Packet(ServerSessAuthenticateOk, okPayload), minSize) && codec.authOk(okPayload).Some?
    requires st.input == Frames(ps) + EncodeFrame(ServerSessAuthenticateOk, okPayload) + rest
    ensures AnswerNonce(st, minSize, maxAllowed, codec, auth, nonce, cont)
      == (Success, st.(input := rest, output := st.output + EncodeFrame(ClientSessAuthenticateContinue, q),
                       noticeLog := st.noticeLog + NoticesOf(ps, codec), pb := None))
  {
    assert Accepted(q, cont.body) == q;
    var st3 := st.(output := st.output + EncodeFrame(ClientSessAuthenticateContinue, q));
    AuthenticateOkAfterNotices(st3, minSize, codec, ps, okPayload, rest);
  }
}
