/**
 * The protobuf messages of the X Protocol control plane, already decoded, and the
 * codec that turns payload bytes into them and back. The codec is abstract: each
 * decoder answers None where proto.Unmarshal fails, each encoder None where
 * proto.Marshal fails.
 */
module Messages {
  import opened Wrappers
  import opened Wire
  import opened Values

  datatype Severity = SeverityError | SeverityFatal

  /** Mysqlx.Error; severity is optional in the schema, the other three are required. */
  datatype ErrorMessage = ErrorMessage(severity: Option<Severity>, code: nat, sqlState: string, msg: string)

  datatype Scope = Global | Local

  /** Mysqlx.Notice.Frame: the notice type, its scope and the still-encoded inner payload. */
  datatype NoticeFrame = NoticeFrame(noticeType: nat, scope: Scope, payload: Bytes)

  datatype Warning = Warning(level: string, code: nat, msg: string)

  /** SessionVariableChanged and SessionStateChanged: a parameter and its rendered value. */
  datatype ParamChange = ParamChange(param: string, value: string)

  datatype NoticeBody =
    | WarningNotice(warning: Warning)
    | VariableChanged(variable: ParamChange)
    | StateChanged(state: ParamChange)
    | UnknownNotice(raw: Bytes)

  datatype Codec = Codec(
    capabilities: Bytes -> Option<seq<Capability>>,
    error: Bytes -> Option<ErrorMessage>,
    noticeFrame: Bytes -> Option<NoticeFrame>,
    warning: Bytes -> Option<Warning>,
    variableChanged: Bytes -> Option<ParamChange>,
    stateChanged: Bytes -> Option<ParamChange>,
    authContinue: Bytes -> Option<Bytes>,
    authOk: Bytes -> Option<Bytes>,
    marshalCapabilitiesSet: seq<Capability> -> Option<Bytes>,
    marshalAuthStart: (string, Bytes) -> Option<Bytes>,
    marshalAuthContinue: Bytes -> Option<Bytes>)
}
