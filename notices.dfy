/** processNotice's decoding of an asynchronous NOTICE frame into what it reports. */
module Notices {
  import opened Wrappers
  import opened Wire
  import opened Messages
  import opened Render

  /** What processNotice reports for one notice: type, its name, scope and decoded body. */
  datatype NoticeReport = NoticeReport(noticeType: nat, name: string, scope: Scope, body: NoticeBody)

  /** The inner decoder processNotice picks for a notice type; None for the types it does not know. */
  function InnerDecode(codec: Codec, noticeType: nat, payload: Bytes): Option<Option<NoticeBody>>
  {
    if noticeType == 1 then
      Some(match codec.warning(payload) case None => None case Some(w) => Some(WarningNotice(w)))
    else if noticeType == 2 then
      Some(match codec.variableChanged(payload) case None => None case Some(c) => Some(VariableChanged(c)))
    else if noticeType == 3 then
      Some(match codec.stateChanged(payload) case None => None case Some(c) => Some(StateChanged(c)))
    else None
  }

  /**
   * The notice processNotice reports, or None where it calls log.Fatalf: only a
   * broken frame, or a broken inner payload of a known type, is fatal, and a
   * notice of an unknown type is always reported. A reported notice carries the
   * frame's type, scope and the type's name; its body is the decoded inner
   * message for types 1 to 3 and the raw inner payload otherwise, exactly when
   * the name is "?".
   */
  function DecodeNotice(codec: Codec, payload: Bytes): (r: Option<NoticeReport>)
    ensures r.None? <==>
      codec.noticeFrame(payload).None? ||
      (var f := codec.noticeFrame(payload).value;
       (f.noticeType == 1 && codec.warning(f.payload).None?) ||
       (f.noticeType == 2 && codec.variableChanged(f.payload).None?) ||
       (f.noticeType == 3 && codec.stateChanged(f.payload).None?))
    ensures r.Some? ==> codec.noticeFrame(payload).Some?
    ensures r.Some? ==>
      var n, f := r.value, codec.noticeFrame(payload).value;
      n.noticeType == f.noticeType && n.scope == f.scope && n.name == NoticeTypeName(f.noticeType) &&
      (n.body.UnknownNotice? <==> n.name == "?") &&
      (n.body.UnknownNotice? ==> n.body.raw == f.payload) &&
      (n.body.WarningNotice? <==> n.noticeType == 1) &&
      (n.body.VariableChanged? <==> n.noticeType == 2) &&
      (n.body.StateChanged? <==> n.noticeType == 3)
  {
    match codec.noticeFrame(payload)
    case None => None
    case Some(f) =>
      match InnerDecode(codec, f.noticeType, f.payload)
      case None => Some(NoticeReport(f.noticeType, NoticeTypeName(f.noticeType), f.scope, UnknownNotice(f.payload)))
      case Some(None) => None
      case Some(Some(body)) => Some(NoticeReport(f.noticeType, NoticeTypeName(f.noticeType), f.scope, body))
  }
}
