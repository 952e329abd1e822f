/**
 * mysqlXConn: the connection whose methods read and write frames and run the
 * capability and authentication exchanges, updating its fields in place.
 * Every method is proved to follow its function in module Session.
 */
module Connection {
  import opened Wrappers
  import opened Wire
  import opened Values
  import opened Messages
  import opened Render
  import opened Notices
  import opened Exchanges
  import opened Session

  class Conn {
    /** minPacketSize: the smallest length a frame header may carry. */
    const minPacketSize: nat
    /** The protobuf codec the generated Mysqlx packages provide. */
    const codec: Codec
    var maxPacketAllowed: int
    /** What the server sent that mc.buf has not yet handed out. */
    var input: Bytes
    /** What reached netConn. */
    var output: Bytes
    var closed: bool
    /** mc.pb: the frame being processed. */
    var pb: Option<Packet>
    /** mc.capabilities, which getCapabilities only ever adds to. */
    var capabilities: seq<Entry>
    /** What processNotice reported to the debug sink. */
    var noticeLog: seq<NoticeReport>

    predicate Valid()
      reads this
    {
      minPacketSize >= 1
    }

    function Snapshot(): State
      reads this
    {
      State(input, output, closed, pb, capabilities, noticeLog)
    }

    constructor (minSize: nat, maxAllowed: int, c: Codec, received: Bytes)
      requires minSize >= 1
      ensures Valid()
      ensures minPacketSize == minSize && codec == c && maxPacketAllowed == maxAllowed
      ensures Snapshot() == State(received, [], false, None, [], [])
    {
      minPacketSize := minSize;
      codec := c;
      maxPacketAllowed := maxAllowed;
      input := received;
      output := [];
      closed := false;
      pb := None;
      capabilities := [];
      noticeLog := [];
    }

    /** mc.buf.readNext: the next n bytes, or an error (consuming nothing) when fewer are left. */
    method ReadNext(n: nat) returns (data: Option<Bytes>)
      modifies this`input
      ensures n <= |old(input)| ==> data == Some(old(input)[..n]) && input == old(input)[n..]
      ensures n > |old(input)| ==> data.None? && input == old(input)
    {
      if n > |input| {
        return None;
      }
      data := Some(input[..n]);
      input := input[n..];
    }

    method Close()
      modifies this`closed
      ensures closed
    {
      closed := true;
    }

    /** netConn.Write: the sink takes what its reply says. */
    method Send(data: Bytes, reply: WriteReply) returns (n: nat, failed: bool)
      modifies this`output
      ensures output == old(output) + Accepted(data, reply)
      ensures n == reply.n && failed == reply.failed
    {
      output := output + Accepted(data, reply);
      n, failed := reply.n, reply.failed;
    }

    /** readMsg: one frame, or driver.ErrBadConn after closing the connection. */
    method ReadMsg() returns (r: Result<Packet, ReadError>)
      requires Valid()
      modifies this`input, this`closed
      ensures var step := ReadFrame(old(input), minPacketSize);
        input == step.rest &&
        (if step.Got? then r == Ok(step.pkt) && closed == old(closed) else r == Err(step.err) && closed)
    {
      ghost var input0 := input;
      var header := ReadNext(HeaderSize);
      if header.None? {
        Close();
        return Err(ShortHeader);
      }
      var data := header.value;
      var pktLen: nat := data[0] as int + 256 * data[1] as int + 65536 * data[2] as int + 16777216 * data[3] as int;
      HeaderValue(data);
      if pktLen < minPacketSize {
        Close();
        return Err(Malformed(pktLen));
      }
      var body := ReadNext(pktLen);
      if body.None? {
        Close();
        return Err(ShortBody(pktLen));
      }
      data := body.value;
      var payload: Bytes := [];
      if |data| > 1 {
        payload := data[1..];
      }
      assert data == input0[HeaderSize..HeaderSize + pktLen];
      assert payload == input0[HeaderSize + 1..HeaderSize + pktLen];
      assert input == input0[HeaderSize + pktLen..];
      return Ok(Packet(data[0], payload));
    }

    /** writeProtobufPacket: the header is built in a 5-byte buffer, then header and payload are written. */
    method WriteProtobufPacket(p: Option<Packet>, replies: WriteReplies) returns (err: Option<WriteError>)
      modifies this`output, this`closed
      ensures var e := WriteOutcome(p, maxPacketAllowed, replies);
        err == e.err && output == old(output) + e.sent && closed == (old(closed) || e.closes)
    {
      if p.None? || p.value.msgType > 255 {
        Close();
        return Some(MalformedPacket);
      }
      var pkt := p.value;
      var pktLen := |pkt.payload| + 1;
      if pktLen > maxPacketAllowed {
        return Some(PacketTooLarge);
      }
      var data := new Byte[HeaderSize + 1];
      data[0] := pktLen % 256;
      data[1] := (pktLen / 256) % 256;
      data[2] := (pktLen / 65536) % 256;
      data[3] := (pktLen / 16777216) % 256;
      data[4] := pkt.msgType % 256;
      HeaderBytes(pktLen);
      assert data[..] == EncodeFrame(pkt.msgType, pkt.payload)[..HeaderSize + 1];
      var size := pktLen;
      var n, failed := Send(data[..], replies.header);
      if failed || n != HeaderSize + 1 {
        return Some(HeaderWriteFailed(n));
      }
      n, failed := Send(pkt.payload, replies.body);
      if failed && n != size {
        return Some(BodyWriteFailed(n));
      }
      return None;
    }
  
    /** processNotice: log.Fatalf unless mc.pb holds a NOTICE that decodes; then it is reported and mc.pb cleared. */
    method ProcessNotice() returns (fatal: bool)
      modifies this`pb, this`noticeLog
      ensures var r := if old(pb).None? then None else DecodeNotice(codec, old(pb).value.payload);
        if r.None? then fatal && pb == old(pb) && noticeLog == old(noticeLog)
        else !fatal && pb.None? && noticeLog == old(noticeLog) + [r.value]
    {
      if pb.None? {
        return true;
      }
      var report := DecodeNotice(codec, pb.value.payload);
      if report.None? {
        return true;
      }
      noticeLog := noticeLog + [report.value];
      pb := None;
      return false;
    }

    /** processErrorMsg: decodes mc.pb as an ERROR message and clears it when that works. */
    method ProcessErrorMsg() returns (detail: Option<ErrorMsgFailure>)
      modifies this`pb
      ensures (detail, pb) == Session.ProcessErrorMsg(codec, old(pb))
    {
      if pb.None? {
        return Some(NoPacket);
      }
      if |pb.value.payload| == 0 {
        return Some(NoPayload);
      }
      if codec.error(pb.value.payload).None? {
        return Some(Undecodable);
      }
      pb := None;
      return None;
    }

    method WriteConnCapabilitiesGet(replies: WriteReplies) returns (err: Option<WriteError>)
      modifies this`output, this`closed
      ensures var e := WriteOutcome(Some(Packet(ClientConCapabilitiesGet, [])), maxPacketAllowed, replies);
        err == e.err && Snapshot() == AfterWrite(old(Snapshot()), e)
    {
      err := WriteProtobufPacket(Some(Packet(ClientConCapabilitiesGet, [])), replies);
    }

    method WriteSessAuthenticateStart(authData: Bytes, replies: WriteReplies) returns (err: Option<Failure>)
      modifies this`output, this`closed
      ensures codec.marshalAuthStart(MechName, authData).None? ==> err == Some(MarshalFailed) && Snapshot() == old(Snapshot())
      ensures codec.marshalAuthStart(MechName, authData).Some? ==>
        var e := WriteOutcome(Some(Packet(ClientSessAuthenticateStart, codec.marshalAuthStart(MechName, authData).value)),
                              maxPacketAllowed, replies);
        err == (if e.err.Some? then Some(WriteFailed(e.err.value)) else None) && Snapshot() == AfterWrite(old(Snapshot()), e)
    {
      var payload := codec.marshalAuthStart(MechName, authData);
      if payload.None? {
        return Some(MarshalFailed);
      }
      var e := WriteProtobufPacket(Some(Packet(ClientSessAuthenticateStart, payload.value)), replies);
      err := if e.Some? then Some(WriteFailed(e.value)) else None;
    }

    method WriteSessAuthenticateContinue(authData: Bytes, replies: WriteReplies) returns (err: Option<Failure>)
      modifies this`output, this`closed
      ensures codec.marshalAuthContinue(authData).None? ==> err == Some(MarshalFailed) && Snapshot() == old(Snapshot())
      ensures codec.marshalAuthContinue(authData).Some? ==>
        var e := WriteOutcome(Some(Packet(ClientSessAuthenticateContinue, codec.marshalAuthContinue(authData).value)),
                              maxPacketAllowed, replies);
        err == (if e.err.Some? then Some(WriteFailed(e.err.value)) else None) && Snapshot() == AfterWrite(old(Snapshot()), e)
    {
      var payload := codec.marshalAuthContinue(authData);
      if payload.None? {
        return Some(MarshalFailed);
      }
      var e := WriteProtobufPacket(Some(Packet(ClientSessAuthenticateContinue, payload.value)), replies);
      err := if e.Some? then Some(WriteFailed(e.value)) else None;
    }

    /**
     * One pass of getCapabilities' classification loop: adds a scalar string,
     * a scalar bool or an array of strings to mc.capabilities, skips other
     * values, and panics where Go dereferences a nil pointer.
     */
    method AddCapability(name: string, value: Option<Any>) returns (panicked: bool)
      modifies this`capabilities
      ensures panicked <==> Classify(value) == NilDereference
      ensures capabilities == old(capabilities) + (if Classify(value).Add? then [Entry(name, Classify(value).value)] else [])
    {
      if IsScalar(value) {
        if value.value.scalar.None? {
          return true;
        }
        if IsScalarString(value) {
          if value.value.scalar.value.vString.None? {
            return true;
          }
          capabilities := capabilities + [Entry(name, StringValue(ScalarString(value)))];
        } else if IsScalarBool(value) {
          if value.value.scalar.value.vBool.None? {
            return true;
          }
          capabilities := capabilities + [Entry(name, BoolValue(ScalarBool(value)))];
        }
      } else if IsArrayString(value) {
        if !StringsPresent(value.value.elements) {
          return true;
        }
        var values := ArrayString(value);
        capabilities := capabilities + [Entry(name, StringArray(values.value))];
      } else if value.None? || value.value.scalar.None? {
        return true;
      }
      return false;
    }

    /** The classification loop of getCapabilities over the decoded capability list; it stops at the first panic. */
    method AddCapabilities(caps: seq<Capability>) returns (panicked: bool)
      modifies this`capabilities
      ensures panicked == Absorb(caps).panicked
      ensures capabilities == old(capabilities) + Absorb(caps).entries
    {
      for i := 0 to |caps|
        invariant !Absorb(caps[..i]).panicked
        invariant capabilities == old(capabilities) + Absorb(caps[..i]).entries
      {
        assert caps[..i + 1][..i] == caps[..i];
        panicked := AddCapability(caps[i].name, caps[i].value);
        if panicked {
          AbsorbPanicSticks(caps, i + 1);
          return;
        }
      }
      assert caps[..|caps|] == caps;
      return false;
    }

    /** errorMsg: the server's ERROR message as text, or log.Fatal when it does not decode. */
    method ErrorMsg(payload: Bytes) returns (s: Status)
      ensures s == ErrorFrameStatus(codec, Packet(ServerError, payload))
    {
      var e := codec.error(payload);
      if e.None? {
        return Crashed(FatalLog);
      }
      return Failed(ServerReported(ErrorText(e)));
    }

    /**
     * getCapabilities: sends CON_CAPABILITIES_GET, then reads until
     * CONN_CAPABILITIES or ERROR, passing each NOTICE to processNotice and
     * ignoring other types, and records the capabilities of the reply.
     */
    method GetCapabilities(replies: WriteReplies) returns (s: Status)
      requires Valid()
      modifies this`input, this`output, this`closed, this`pb, this`capabilities, this`noticeLog
      ensures (s, Snapshot()) == Session.GetCapabilities(old(Snapshot()), minPacketSize, maxPacketAllowed, codec, replies)
    {
      var err := WriteConnCapabilitiesGet(replies);
      if err.Some? {
        return Failed(WriteFailed(err.value));
      }
      s := AwaitCapabilities();
    }

    /** The wait loop of getCapabilities and what follows it. */
    method AwaitCapabilities() returns (s: Status)
      requires Valid()
      modifies this`input, this`closed, this`pb, this`capabilities, this`noticeLog
      ensures (s, Snapshot())
        == CapabilitiesReply(old(Snapshot()), Await(old(input), minPacketSize, codec, ServerConnCapabilities, true), codec)
    {
      ghost var st1 := Snapshot();
      ghost var w := Await(st1.input, minPacketSize, codec, ServerConnCapabilities, true);
      ghost var seen: seq<NoticeReport> := [];
      var reply := Packet(ServerConnCapabilities, []);
      var done := false;
      while !done
        invariant output == st1.output && capabilities == st1.capabilities && closed == st1.closed
        invariant noticeLog == st1.noticeLog + seen
        invariant pb == if seen == [] then st1.pb else None
        invariant !done ==> w == Prepend(seen, Await(input, minPacketSize, codec, ServerConnCapabilities, true))
        invariant done ==> w == Wait(Reply(reply), seen, input)
        decreases !done, |input|
      {
        ghost var before := input;
        var r := ReadMsg();
        if r.Err? {
          assert w == Wait(ReadFailed(r.error), seen, input);
          return Failed(ConnectionLost(r.error));
        }
        var p := r.value;
        if p.msgType == ServerError {
          assert w == Wait(ErrorFrame(p), seen, input);
          s := ErrorMsg(p.payload);
          return;
        } else if p.msgType == ServerConnCapabilities {
          reply, done := p, true;
          assert [] + seen == seen;
        } else {
          ghost var reported := NoticeOf(p, codec);
          if p.msgType == ServerNotice {
            pb := Some(p);
            var fatal := ProcessNotice();
            if fatal {
              assert w == Wait(BadNotice(p), seen, input);
              return Crashed(FatalLog);
            }
          }
          AwaitPassStep(before, minPacketSize, codec, ServerConnCapabilities, true);
          PrependTwice(seen, reported, Await(input, minPacketSize, codec, ServerConnCapabilities, true));
          seen := seen + reported;
        }
      }
      s := AcceptCapabilities(reply.payload);
    }

    /** getCapabilities once CONN_CAPABILITIES has arrived: decode it and record every capability. */
    method AcceptCapabilities(payload: Bytes) returns (s: Status)
      modifies this`capabilities
      ensures (s, Snapshot()) == CapabilitiesFrom(old(Snapshot()), payload, codec)
    {
      if |payload| == 0 {
        return Failed(EmptyPayload);
      }
      var caps := codec.capabilities(payload);
      if caps.None? {
        return Failed(UndecodablePayload);
      }
      var panicked := AddCapabilities(caps.value);
      s := if panicked then Crashed(NilPointer) else Success;
    }
  
    /**
     * setScalarBoolCapability: sends CON_CAPABILITIES_SET with one boolean
     * capability, then reads until OK or ERROR, passing each NOTICE to
     * processNotice and ignoring other types.
     */
    method SetScalarBoolCapability(name: string, value: bool, replies: WriteReplies) returns (s: Status)
      requires Valid()
      modifies this`input, this`output, this`closed, this`pb, this`noticeLog
      ensures (s, Snapshot()) == Session.SetScalarBoolCapability(old(Snapshot()), minPacketSize, maxPacketAllowed, codec, name, value, replies)
    {
      var payload := codec.marshalCapabilitiesSet([Capability(name, Some(BoolAny(value)))]);
      if payload.None? {
        return Failed(MarshalFailed);
      }
      var err := WriteProtobufPacket(Some(Packet(ClientConCapabilitiesSet, payload.value)), replies);
      if err.Some? {
        return Failed(WriteFailed(err.value));
      }
      s := AwaitCapabilitySet();
    }

    /** The wait loop of setScalarBoolCapability; an ERROR reply is handed to processErrorMsg. */
    method AwaitCapabilitySet() returns (s: Status)
      requires Valid()
      modifies this`input, this`closed, this`pb, this`noticeLog
      ensures (s, Snapshot()) == CapabilitySetReply(old(Snapshot()), Await(old(input), minPacketSize, codec, ServerOk, true), codec)
    {
      ghost var st1 := Snapshot();
      ghost var w := Await(st1.input, minPacketSize, codec, ServerOk, true);
      ghost var seen: seq<NoticeReport> := [];
      while true
        invariant output == st1.output && capabilities == st1.capabilities && closed == st1.closed
        invariant noticeLog == st1.noticeLog + seen
        invariant pb == if seen == [] then st1.pb else None
        invariant w == Prepend(seen, Await(input, minPacketSize, codec, ServerOk, true))
        decreases |input|
      {
        ghost var before := input;
        var r := ReadMsg();
        if r.Err? {
          assert w == Wait(ReadFailed(r.error), seen, input);
          return Failed(ConnectionLost(r.error));
        }
        var p := r.value;
        if p.msgType == ServerOk {
          assert w == Wait(Reply(p), seen, input);
          return Success;
        } else if p.msgType == ServerError {
          assert w == Wait(ErrorFrame(p), seen, input);
          var detail := ProcessErrorMsg();
          return Failed(CapabilitySetFailed(detail));
        }
        ghost var reported := NoticeOf(p, codec);
        if p.msgType == ServerNotice {
          pb := Some(p);
          var fatal := ProcessNotice();
          if fatal {
            assert w == Wait(BadNotice(p), seen, input);
            return Crashed(FatalLog);
          }
        }
        AwaitPassStep(before, minPacketSize, codec, ServerOk, true);
        PrependTwice(seen, reported, Await(input, minPacketSize, codec, ServerOk, true));
        seen := seen + reported;
      }
    }

    /**
     * waitingForAuthenticateOk: reads into mc.pb until SESS_AUTHENTICATE_OK,
     * returns the server's error on ERROR, passes each NOTICE to
     * processNotice, and calls log.Fatalf on any other type.
     */
    method WaitingForAuthenticateOk() returns (s: Status)
      requires Valid()
      modifies this`input, this`closed, this`pb, this`noticeLog
      ensures (s, Snapshot()) == Session.WaitingForAuthenticateOk(old(Snapshot()), minPacketSize, codec)
    {
      ghost var st1 := Snapshot();
      ghost var w := Await(st1.input, minPacketSize, codec, ServerSessAuthenticateOk, false);
      assert Session.WaitingForAuthenticateOk(st1, minPacketSize, codec) == AuthenticateOkReply(st1, w, codec);
      ghost var seen: seq<NoticeReport> := [];
      var done := false;
      while !done
        invariant output == st1.output && capabilities == st1.capabilities && closed == st1.closed
        invariant noticeLog == st1.noticeLog + seen
        invariant !done ==> w == Prepend(seen, Await(input, minPacketSize, codec, ServerSessAuthenticateOk, false))
        invariant done ==> pb.Some? && w == Wait(Reply(pb.value), seen, input)
        decreases !done, |input|
      {
        ghost var before := input;
        var r := ReadMsg();
        if r.Err? {
          pb := None;
          assert w == Wait(ReadFailed(r.error), seen, input);
          return Failed(ConnectionLost(r.error));
        }
        pb := Some(r.value);
        if pb.value.msgType == ServerSessAuthenticateOk {
          done := true;
          assert [] + seen == seen;
        } else if pb.value.msgType == ServerError {
          assert w == Wait(ErrorFrame(pb.value), seen, input);
          s := ErrorMsg(pb.value.payload);
          return;
        } else if pb.value.msgType == ServerNotice {
          ghost var p := pb.value;
          ghost var reported := NoticeOf(p, codec);
          var fatal := ProcessNotice();
          if fatal {
            assert w == Wait(BadNotice(p), seen, input);
            return Crashed(FatalLog);
          }
          AwaitPassStep(before, minPacketSize, codec, ServerSessAuthenticateOk, false);
          PrependTwice(seen, reported, Await(input, minPacketSize, codec, ServerSessAuthenticateOk, false));
          seen := seen + reported;
        } else {
          assert w == Wait(Unexpected(pb.value), seen, input);
          return Crashed(FatalLog);
        }
      }
      return Success;
    }

    /**
     * AuthenticateMySQL41: SESS_AUTHENTICATE_START (its error is discarded),
     * one SESS_AUTHENTICATE_CONTINUE carrying a 20-byte nonce, the scrambled
     * answer, then waitingForAuthenticateOk and the AuthenticateOk payload.
     */
    method AuthenticateMySQL41(auth: AuthInfo, start: WriteReplies, cont: WriteReplies) returns (s: Status)
      requires Valid()
      modifies this`input, this`output, this`closed, this`pb, this`noticeLog
      ensures (s, Snapshot())
        == Session.AuthenticateMySQL41(old(Snapshot()), minPacketSize, maxPacketAllowed, codec, auth, start, cont)
    {
      var ignored := WriteSessAuthenticateStart(auth.initial, start);
      var r := ReadMsg();
      if r.Err? {
        return Failed(ConnectionLost(r.error));
      }
      var p := r.value;
      if p.msgType != ServerSessAuthenticateContinue {
        return Failed(UnexpectedMessage(PrintableMsgTypeIn(p.msgType), PrintableMsgTypeIn(ServerSessAuthenticateContinue)));
      }
      var nonce := codec.authContinue(p.payload);
      if nonce.None? {
        return Crashed(FatalLog);
      }
      s := AnswerNonce(nonce.value, auth, cont);
    }

    /** AuthenticateMySQL41 from the server's nonce on. */
    method AnswerNonce(nonce: Bytes, auth: AuthInfo, cont: WriteReplies) returns (s: Status)
      requires Valid()
      modifies this`input, this`output, this`closed, this`pb, this`noticeLog
      ensures (s, Snapshot()) == Session.AnswerNonce(old(Snapshot()), minPacketSize, maxPacketAllowed, codec, auth, nonce, cont)
    {
      if |nonce| != NonceLength {
        return Failed(BadNonceLength(|nonce|));
      }
      var response := auth.next(nonce);
      if response.None? {
        return Failed(ScrambleFailed);
      }
      var err := WriteSessAuthenticateContinue(response.value, cont);
      if err.Some? {
        return Failed(err.value);
      }
      s := WaitingForAuthenticateOk();
      if s != Success {
        return;
      }
      if codec.authOk(pb.value.payload).None? {
        return Crashed(FatalLog);
      }
      pb := None;
    }
  }
}
