# MySQL X Protocol control plane, modelled in Dafny

This project models the client side of the MySQL X Protocol control plane in
`protocol.go` of the Go X Protocol driver. It covers:

- the frame codec (`readMsg`, `writeProtobufPacket`);
- the classification of capability values (`isScalar*`, `scalar*`,
  `isArrayString`, `arrayString` and the classification loop of
  `getCapabilities`);
- the reply wait loops of `getCapabilities`, `setScalarBoolCapability` and
  `waitingForAuthenticateOk`, and the MYSQL41 handshake `AuthenticateMySQL41`;
- notice and error handling (`processNotice`, `processErrorMsg`, `errorMsg`);
- the diagnostic renderers (`errorText`, `noticeTypeToName`,
  `printableMsgTypeIn`, `isPrintable`).

Modules:

- `Wire`: bytes, the 4-byte little-endian length header, `ReadFrame` (readMsg's
  rule over the unread bytes) and `EncodeFrame` (what writeProtobufPacket puts on
  the wire), with the round trip between them.
- `Values`: the decoded `Mysqlx.Datatypes.Any` values, the scalar and array
  helpers, and `Classify`/`Absorb`, the classification loop including Go's
  nil-pointer panics.
- `Messages`: decoded protobuf messages and an abstract `Codec` record whose
  decoders return `None` where `proto.Unmarshal` fails.
- `Render`: `%d`, `%04d`, `errorText`, `noticeTypeToName`, `printableMsgTypeIn`,
  `isPrintable`.
- `Notices`: what `processNotice` decodes and reports, and when it calls
  `log.Fatalf`.
- `Exchanges`: `Await`, one function for the three wait loops over the unread
  input. It is tolerant (reads past NOTICE and unknown types) or strict (reads
  past NOTICE only).
- `Session`: each operation as a function from the connection state to a status
  and the new state, with lemmas about whole exchanges.
- `Connection`: class `Conn`, the `mysqlXConn` whose methods update `input`,
  `output`, `closed`, `pb` (mc.pb), `capabilities` and `noticeLog` in place.
  Each method is proved to end in the state, and return the status, that its
  `Session` function gives.

The environment enters as parameters:

- the bytes the server sends are the connection's `input`;
- `netConn.Write` answers are `WriteReply` values (bytes taken, error or not);
- the protobuf codec is the `Codec` record;
- the MYSQL41 scramble is `AuthInfo.next`, which may fail.

`log.Fatal`/`log.Fatalf` become the status `Crashed(FatalLog)`. A nil-pointer
dereference becomes `Crashed(NilPointer)`.

Behaviour of the code that is modelled as written:

- The payload-write check of `writeProtobufPacket` is `err != nil && n != pktLen`.
  `pktLen` counts the type byte, so for every count a writer can return, the
  check is just `err != nil`. A short write reported without an error counts as
  success (`BodyCheckIgnoresCount`).
- A negative message type passes the `> 255` guard and goes out as its low byte
  (`NegativeTypeWraps`).
- `AuthenticateMySQL41` discards the error of `writeSessAuthenticateStart` and
  goes on reading.
- On an ERROR reply, `setScalarBoolCapability` calls `processErrorMsg`. That
  decodes `mc.pb`, which the ERROR branch never set, so the ERROR frame's own
  payload has no effect (`SetScalarBoolErrorIgnoresFrame`).
- The classification loop dereferences a nil pointer, and so panics, on:
  - a nil capability value (line 284);
  - a SCALAR value with no `Scalar` field (lines 141 and 146);
  - a V_STRING scalar with no `VString` (line 154);
  - a V_BOOL scalar with no `VBool` (line 162);
  - an array of strings with an element that has no `VString` (line 193);
  - any other value with no `Scalar` field (line 284).

  The entries added before the panic stay in the table.
- `getCapabilities` never clears `mc.capabilities`. The model records each
  `Add*` call as an appended entry; what `Add*` does with a name already
  present is defined outside this file.
- A capability of a shape the loop does not handle is skipped only when it
  has a `Scalar` field; otherwise line 284 panics.
- A first reply other than SESS_AUTHENTICATE_CONTINUE makes
  `AuthenticateMySQL41` return an error; it does not call `log.Fatal`.

## Model

| member | source | states |
|---|---|---|
| Wire.LittleEndianOfBytes | protocol.go:109-112 | the four header bytes read back as the length modulo 2^32, like Go's byte conversions |
| Wire.BytesOfLittleEndian | protocol.go:57 | re-encoding a decoded header gives the same bytes |
| Wire.HeaderBytes | protocol.go:109-112 | the header is `byte(n), byte(n>>8), byte(n>>16), byte(n>>24)` |
| Wire.HeaderValue | protocol.go:57 | the header value is the shift-and-or of the four bytes |
| Wire.ReadFrame | protocol.go:47-86 | a read never grows the input; a frame consumes at least 5 bytes and has a type in 0..255 |
| Wire.ReadFrameConsumes | protocol.go:49-71 | a short header consumes nothing; a malformed length or a short body consumes exactly the 4 header bytes; a frame leaves a suffix |
| Wire.EncodeFrame | protocol.go:105-123 | the written frame is 5 bytes longer than its payload |
| Wire.FrameRoundTrip | protocol.go:57-78 | readMsg's rule reads an encoded frame back as the same type and payload and leaves what followed |
| Wire.ReadFrameIsEncoding | protocol.go:57-78 | every frame readMsg accepts is exactly the encoding of the packet it returns |
| Wire.ShortLengthIsMalformed | protocol.go:59-63 | a length below minPacketSize is rejected after only the 4 header bytes |
| Values.IsScalar | protocol.go:135-137 | a nil value is never a scalar |
| Values.IsScalarString | protocol.go:140-142 | a string scalar is a scalar |
| Values.IsScalarBool | protocol.go:145-147 | a bool scalar is a scalar and never also a string scalar |
| Values.ScalarString | protocol.go:150-155 | a string scalar yields its VString text; anything else yields "" |
| Values.ScalarBool | protocol.go:158-163 | a bool scalar yields its VBool; anything else yields false |
| Values.AllStringElements | protocol.go:173-180 | the early-return loop holds exactly when every element is a V_STRING scalar (recursive contract) |
| Values.IsArrayString | protocol.go:166-183 | isArrayString holds exactly of a non-nil ARRAY whose every element is a V_STRING scalar |
| Values.StringsOf | protocol.go:192-194 | one string per element, in order, each the element's VString |
| Values.ArrayString | protocol.go:186-197 | nil unless isArrayString holds, else the element strings in order |
| Values.Classify | protocol.go:258-286 | a value is added exactly when it is a supported shape, and panics exactly on the nil dereferences; an added value carries the value's own string, bool or strings |
| Values.Absorb | protocol.go:257-287 | the loop panics exactly when some value dereferences nil, and adds at most one entry per capability |
| Values.AbsorbPanicSticks | protocol.go:257-287 | after a panic, later capabilities change nothing |
| Values.AbsorbAddsSupported | protocol.go:257-287 | without a panic, the supported values are added in order and nothing else is |
| Values.BoolAny | protocol.go:293-316 | newAnyScalar(SCALAR, newBoolScalar(b)) is a bool scalar carrying b |
| Values.BoolAnyClassifies | protocol.go:329-335 | the bool capability setScalarBoolCapability sends classifies back as that bool |
| Render.Decimal | protocol.go:414 | `%d` is a run of digits with no leading zero, except for 0 itself |
| Render.DecimalWidth | protocol.go:414 | `%d` of n takes at most k digits exactly when n is below 10^k |
| Render.DecimalValue | protocol.go:414 | `%d` reads back as the number it rendered |
| Render.ZeroPad4 | protocol.go:414 | `%04d` is digits, exactly max(4, width of `%d`) of them |
| Render.ZeroPad4Width | protocol.go:414 | `%04d` is exactly four digits exactly for numbers below 10000, starts with 0 below 1000, and is `%d` itself, neither padded nor truncated, from 1000 on |
| Render.ZeroPad4Value | protocol.go:414 | `%04d` is at least four digits and reads back as the code |
| Render.LeadingZeros | protocol.go:414 | zero padding keeps the value |
| Render.ErrorText | protocol.go:410-415 | errorText is as long as the severity, the padded code, the SQL state and the message plus six separator characters; ErrorTextFields splits it back into those fields |
| Render.ErrorTextFields | protocol.go:410-415 | errorText splits back into severity, `": "`, the code's digits, `" ["`, SQL state, `"] "` and the message |
| Render.ErrorTextAccessDenied | protocol.go:410-415 | the access-denied error renders as `"ERROR: 1045 [HY000] "` followed by the message |
| Render.ErrorTextPadsCode | protocol.go:414 | in errorText every code below 10000 is exactly four digits after `": "` that read back as the code, with a leading zero below 1000; a nil severity renders as `<nil>` |
| Render.NoticeTypeName | protocol.go:704-709 | types 1, 2 and 3 are "Warning", "SessionVariableChanged" and "SessionStateChanged"; every other type is "?" |
| Render.NoticeTypeNamesDistinct | protocol.go:704-709 | distinct known types have distinct names |
| Render.PrintableMsgTypeIn | protocol.go:694-696 | the text ends in `]` |
| Render.LeadingDigitsOf | protocol.go:694-696 | the digits before the first non-digit are recovered |
| Render.PrintableMsgTypeInCode | protocol.go:694-696 | the rendered type reads back as its code |
| Render.PrintableMsgTypeInInjective | protocol.go:694-696 | different codes never render alike |
| Render.IsPrintable | protocol.go:780-788 | the early-return scan holds exactly when every byte is in 32..126 (recursive contract) |
| Notices.DecodeNotice | protocol.go:464-514 | log.Fatalf exactly when the frame, or the inner payload of a known type (1 to 3), does not decode, so unknown types are always reported; a reported notice carries the frame's type, scope and name, with the decoded body for types 1 to 3 and the raw bytes, named "?", otherwise |
| Exchanges.Await | protocol.go:212-237 | a loop never grows the input; a tolerant loop never stops on an unexpected type; the stop frame has the type its stop says |
| Exchanges.AwaitLeavesSuffix | protocol.go:212-237 | what a wait loop leaves unread is a suffix of its input |
| Exchanges.AwaitPassStep | protocol.go:230-236 | a NOTICE that decodes, or (tolerant) an unknown type, is consumed and the loop goes on |
| Exchanges.AwaitReply | protocol.go:227-229 | the awaited reply ends the loop at once and leaves what follows unread |
| Exchanges.AwaitError | protocol.go:224-226 | an ERROR frame ends the loop at once and leaves what follows unread |
| Exchanges.AwaitNotice | protocol.go:230-233 | a NOTICE that decodes is reported and never ends the loop |
| Exchanges.AwaitBadNotice | protocol.go:464-467 | a NOTICE that does not decode ends the loop in log.Fatalf |
| Exchanges.AwaitSkipsUnknown | protocol.go:234-235 | a tolerant loop reads past any other type |
| Exchanges.StrictStopsAtUnknown | protocol.go:677-687 | the strict loop stops with log.Fatalf at any other type |
| Exchanges.AwaitPastOne | protocol.go:230-236 | one passable frame is consumed without ending the loop |
| Exchanges.AwaitPast | protocol.go:212-237 | a run of passable frames is consumed; exactly the notices among them are reported, in order |
| Session.Accepted | protocol.go:117 | what a Write takes is a prefix of the data |
| Session.WriteOutcome | protocol.go:89-128 | closes exactly on a nil packet or a type above 255; nothing is sent on the two guards; what is sent is a prefix of the frame; success sends at least the header |
| Session.WriteRejectsBadType | protocol.go:90-93 | a nil packet or a type above 255 closes the connection, returns ErrMalformPkt and writes nothing |
| Session.WriteRejectsTooLarge | protocol.go:99-103 | a packet over the limit writes nothing and leaves the connection open |
| Session.WriteSendsFrame | protocol.go:99-127 | a fully written packet puts exactly its frame on the wire, and readMsg's rule reads it back |
| Session.BodyCheckIgnoresCount | protocol.go:123-126 | the payload write fails exactly when Write returned an error, whatever count it returned |
| Session.NegativeTypeWraps | protocol.go:90-113 | a negative type passes the guard and is read back as its low byte |
| Session.ProcessErrorMsg | protocol.go:759-777 | succeeds exactly when mc.pb holds a non-empty payload that decodes, and clears mc.pb only then |
| Session.ErrorFrameStatus | protocol.go:435-441 | errorMsg on an ERROR payload is never success: log.Fatal exactly when it does not decode, else the errorText of the decoded error |
| Session.SendAuthenticateStart | protocol.go:529-542 | writeSessAuthenticateStart reads nothing and touches neither the notices nor the capability table; a marshal failure changes nothing |
| Session.GetCapabilities | protocol.go:201-290 | getCapabilities writes only its CON_CAPABILITIES_GET request; input is only consumed, and the notice log and the capability table are only appended to |
| Session.SetScalarBoolCapability | protocol.go:319-407 | setScalarBoolCapability leaves the capability table alone and only moves the connection forward |
| Session.WaitingForAuthenticateOk | protocol.go:645-692 | waitingForAuthenticateOk writes nothing, leaves the capability table alone, and on success holds a SESS_AUTHENTICATE_OK frame in mc.pb |
| Session.AuthenticateMySQL41 | protocol.go:570-640 | AuthenticateMySQL41 leaves the capability table alone, only moves the connection forward, and on success leaves mc.pb cleared (line 637) |
| Session.AuthenticateOkLeavesFrame | protocol.go:649-662 | waitingForAuthenticateOk succeeds exactly when its loop met SESS_AUTHENTICATE_OK, and leaves that frame in mc.pb |
| Session.AwaitAfterRun | protocol.go:212-237 | after passable frames, the reply or ERROR frame ends the loop with exactly their notices reported |
| Session.CapabilitiesGetSent | protocol.go:521-527 | CON_CAPABILITIES_GET goes out as an empty-payload frame |
| Session.GetCapabilitiesAfterRun | protocol.go:201-290 | after notices and unknown frames, CONN_CAPABILITIES ends the exchange: each notice is reported, and exactly what the loop adds is appended |
| Session.GetCapabilitiesRecordsSupported | protocol.go:257-287 | without a nil dereference, exactly the supported values are recorded and getCapabilities succeeds |
| Session.GetCapabilitiesServerError | protocol.go:224-226 | an ERROR reply ends getCapabilities with errorText of the decoded error, or log.Fatal, recording nothing |
| Session.GetCapabilitiesEmptyReply | protocol.go:244-246 | an empty CONN_CAPABILITIES payload is an error and nothing is recorded |
| Session.GetCapabilitiesWriteFails | protocol.go:204-206 | when the request cannot be written, nothing is read |
| Session.CapabilitiesSetSent | protocol.go:351-363 | the CON_CAPABILITIES_SET frame goes out whole |
| Session.SetScalarBoolOk | protocol.go:365-382 | the first OK after any run of notices and unknown frames is success |
| Session.SetScalarBoolErrorIgnoresFrame | protocol.go:383-385 | an ERROR reply fails with processErrorMsg's verdict on mc.pb, whatever the frame holds |
| Session.AuthenticateOkAfterNotices | protocol.go:649-676 | SESS_AUTHENTICATE_OK after notices is success, with the notices reported and the frame left in mc.pb |
| Session.AuthenticateOkServerError | protocol.go:663-667 | an ERROR frame is returned as the server's error text |
| Session.AuthenticateOkUnexpected | protocol.go:677-687 | any other type ends in log.Fatalf |
| Session.AuthenticateWrongFirstFrame | protocol.go:594-603 | a first reply other than SESS_AUTHENTICATE_CONTINUE (a NOTICE included) is an error naming both types |
| Session.AuthenticateBadNonce | protocol.go:607-611 | a nonce of any length but 20 is an error before the scramble is asked for or anything more is written |
| Session.AuthenticateReachesNonce | protocol.go:594-605 | after SESS_AUTHENTICATE_CONTINUE with a decodable nonce, the rest of the exchange is the nonce step |
| Session.AnswerNonce | protocol.go:607-639 | a nonce whose length is not 20 fails with BadNonceLength and changes nothing; the table is left alone and success leaves mc.pb cleared |
| Session.AuthenticateSucceeds | protocol.go:570-640 | CONTINUE with a 20-byte nonce, then the scrambled answer, then SESS_AUTHENTICATE_OK after notices: success with mc.pb cleared |
| Session.AnswerNonceSucceeds | protocol.go:607-639 | the nonce step writes the scrambled answer and succeeds on SESS_AUTHENTICATE_OK after notices |
| Connection.Conn.ReadMsg | protocol.go:47-86 | consumes exactly what readMsg's rule consumes; returns its packet, or its error after closing |
| Connection.Conn.WriteProtobufPacket | protocol.go:89-128 | the error, the bytes sent and the close flag are those of WriteOutcome |
| Connection.Conn.ProcessNotice | protocol.go:453-519 | log.Fatalf unless mc.pb holds a decodable NOTICE; else the notice is reported and mc.pb cleared |
| Connection.Conn.ProcessErrorMsg | protocol.go:759-777 | returns and clears as Session.ProcessErrorMsg |
| Connection.Conn.WriteConnCapabilitiesGet | protocol.go:521-527 | writes CON_CAPABILITIES_GET as WriteOutcome says |
| Connection.Conn.WriteSessAuthenticateStart | protocol.go:529-542 | a marshal failure writes nothing; else writes SESS_AUTHENTICATE_START as WriteOutcome says |
| Connection.Conn.WriteSessAuthenticateContinue | protocol.go:544-556 | a marshal failure writes nothing; else writes SESS_AUTHENTICATE_CONTINUE as WriteOutcome says |
| Connection.Conn.AddCapability | protocol.go:258-286 | panics exactly on a nil dereference; appends the classified entry exactly for a supported value |
| Connection.Conn.AddCapabilities | protocol.go:257-287 | panics and appends exactly as Absorb says |
| Connection.Conn.ErrorMsg | protocol.go:435-441 | log.Fatal when the payload does not decode, else errorText of it |
| Connection.Conn.GetCapabilities | protocol.go:201-290 | status and new state are those of Session.GetCapabilities |
| Connection.Conn.AwaitCapabilities | protocol.go:208-254 | the wait loop ends as Await says, with mc.pb, the notices and the input updated accordingly |
| Connection.Conn.AcceptCapabilities | protocol.go:244-287 | an empty or undecodable payload is an error; else the loop's entries are appended |
| Connection.Conn.SetScalarBoolCapability | protocol.go:319-407 | status and new state are those of Session.SetScalarBoolCapability |
| Connection.Conn.AwaitCapabilitySet | protocol.go:365-394 | the wait loop ends as Await says, and ERROR goes through processErrorMsg |
| Connection.Conn.WaitingForAuthenticateOk | protocol.go:645-692 | status and new state are those of Session.WaitingForAuthenticateOk |
| Connection.Conn.AuthenticateMySQL41 | protocol.go:570-640 | status and new state are those of Session.AuthenticateMySQL41 |
| Connection.Conn.AnswerNonce | protocol.go:607-639 | status and new state are those of Session.AnswerNonce |

## Left out

- Socket I/O, buffering and timeouts: `mc.buf.readNext`, `netConn.Write` and
  `mc.Close` become the `input` and `output` byte sequences and the `closed`
  flag. A failed `readNext` consumes nothing.
- Protobuf marshalling and unmarshalling: the `Codec` record is uninterpreted.
  The generated `Mysqlx_*` types are datatypes holding only the fields this code
  reads. `newBoolScalar` and `newAnyScalar` are `BoolAny`.
- The MYSQL41 scramble (`NewMySQL41`, `GetInitialAuthData`, `GetNextAuthData`)
  is `AuthInfo`, defined outside this file.
- `debug.Msg`, `errLog` and the text of each `fmt.Errorf`. A `Failure` value
  names which error was returned, not its wording. The one trace that is kept is
  the notices `processNotice` reports (`noticeLog`), without their formatting.
- `log.Fatal`/`log.Fatalf` and a nil-pointer panic end the operation with a
  `Crashed` status; process exit is not modelled.
- `printAuthenticateOk` prints nothing here; only its decode (log.Fatal on
  failure) is kept.
- `writeStmtExecute`, `writeClose`, `getSystemVarXProtocol` and
  `printableMsgTypeOut`: thin wrappers outside the control plane modelled here.
- The method form of `errorMsg` on a packet (lines 419-431) is not modelled.
  Its only caller is `setScalarBoolCapability` (line 384), which passes its
  result to `debug.Msg` and nothing else, so it has no effect on the state or
  the status.
- The `pb == nil` checks after `readMsg` and the `mc == nil` checks can never
  fire: a successful read always yields a packet. Go's nil versus empty payload
  slice is one value here.
- `Mysqlx.ServerMessages_Type_name`, which `printableMsgTypeIn` reads (line
  695), comes from the generated protobuf package, not this file. `ServerTypeNames`
  takes its codes and names from the X Protocol's `ServerMessages.Type`
  definition.
- `mc.capabilities.Add*` is defined outside this file. The model's
  `capabilities` is the log of `Add*` calls, one appended entry per call; how
  `Add*` treats a name already present is not modelled.
- `minPacketSize` is defined outside this file. It is a constructor parameter of
  at least 1.
- Connection.Conn.AwaitCapabilities, Connection.Conn.AwaitCapabilitySet and
  Connection.Conn.AcceptCapabilities: the Go wait loops live inside
  `getCapabilities` and `setScalarBoolCapability`. They are separate methods
  here so each proof stays small. `setScalarBoolCapability`'s `done` flag is
  never set in the code, so its loop is `while true`.
- Connection.Conn.ReadMsg: the 32-bit header value is the unbounded sum of its
  bytes. It is always below 2^32, so no truncation is involved.
