/** `AbstractMessage`: the message envelope a module works on — headers, the MIME
    body, the append-only history of body replacements, and an optional MDN. */
module Messages {
  import opened Wrappers
  import opened Partnerships

  /** Header names (the constants of `CAS2Header`, spelled as in RFC 4130 and
      RFC 2045; `CAS2Header` is not part of this model). */
  const HeaderContentType := "Content-Type"
  const HeaderContentDisposition := "Content-Disposition"
  const HeaderSubject := "Subject"
  const HeaderAs2From := "AS2-From"
  const HeaderAs2To := "AS2-To"

  /** A header read from a MIME part, which may throw `MessagingException`. */
  datatype Read<T> = Readable(value: T) | Unreadable

  /** A `MimeBodyPart`, seen only through the two headers the message mirrors. */
  datatype MimeBody = MimeBody(
    contentType: Read<Option<string>>,
    disposition: Read<Option<string>>)

  /** A `DataHistoryItem`: the content type the body had when it was stored. */
  datatype HistoryItem = HistoryItem(contentType: Option<string>)

  /** An `IMessageMDN`, reduced to its own headers and partnership. */
  datatype MessageMdn = MessageMdn(headers: StringMap, partnership: Partnership)

  datatype Message = Message(
    headers: StringMap,
    partnership: Partnership,
    data: Option<MimeBody>,
    history: seq<HistoryItem>,
    mdn: Option<MessageMdn>)

  /** `setHeader (name, value)` of the header store: a null value removes the header. */
  function SetHeader(headers: StringMap, name: string, value: Option<string>): (r: StringMap)
    ensures GetHeader(r, name) == value
    ensures forall n :: n != name ==> GetHeader(r, n) == GetHeader(headers, n)
  {
    match value
    case Some(v) => headers[name := v]
    case None => headers - {name}
  }

  function GetHeader(headers: StringMap, name: string): Option<string> {
    if name in headers then Some(headers[name]) else None
  }

  function SetContentType(msg: Message, value: Option<string>): Message {
    msg.(headers := SetHeader(msg.headers, HeaderContentType, value))
  }

  function GetContentType(msg: Message): Option<string> {
    GetHeader(msg.headers, HeaderContentType)
  }

  function SetContentDisposition(msg: Message, value: Option<string>): Message {
    msg.(headers := SetHeader(msg.headers, HeaderContentDisposition, value))
  }

  function GetContentDisposition(msg: Message): Option<string> {
    GetHeader(msg.headers, HeaderContentDisposition)
  }

  function SetSubject(msg: Message, value: Option<string>): Message {
    msg.(headers := SetHeader(msg.headers, HeaderSubject, value))
  }

  function GetSubject(msg: Message): Option<string> {
    GetHeader(msg.headers, HeaderSubject)
  }

  function SetMdn(msg: Message, mdn: Option<MessageMdn>): Message {
    msg.(mdn := mdn)
  }

  function GetMdn(msg: Message): Option<MessageMdn> {
    msg.mdn
  }

  /** Each setter is read back by its getter, touches no other header, and leaves
      the rest of the message alone; `setMDN`/`getMDN` round-trip likewise. */
  lemma AccessorsRoundTrip(msg: Message, v: Option<string>, mdn: Option<MessageMdn>, other: string)
    ensures GetContentType(SetContentType(msg, v)) == v
    ensures GetContentDisposition(SetContentDisposition(msg, v)) == v
    ensures GetSubject(SetSubject(msg, v)) == v
    ensures other != HeaderContentType ==> GetHeader(SetContentType(msg, v).headers, other) == GetHeader(msg.headers, other)
    ensures other != HeaderContentDisposition ==> GetHeader(SetContentDisposition(msg, v).headers, other) == GetHeader(msg.headers, other)
    ensures other != HeaderSubject ==> GetHeader(SetSubject(msg, v).headers, other) == GetHeader(msg.headers, other)
    ensures SetSubject(msg, v).(headers := msg.headers) == msg
    ensures GetMdn(SetMdn(msg, mdn)) == mdn && SetMdn(msg, mdn).(mdn := msg.mdn) == msg
  {
  }

  /** What a header read yields in `setData`: the value, or null when reading throws. */
  function ReadOrNull(read: Read<Option<string>>): Option<string> {
    match read
    case Readable(v) => v
    case Unreadable => None
  }

  /** `setData (data, historyItem)`: stores the body; for a non-null body, mirrors its
      content type and disposition into the headers (clearing each that cannot be
      read); appends a non-null history item. */
  function SetData(msg: Message, data: Option<MimeBody>, item: Option<HistoryItem>): (r: Message)
    ensures r.data == data
    ensures r.history == msg.history + (if item.Some? then [item.value] else [])
    ensures data.Some? ==> GetContentType(r) == ReadOrNull(data.value.contentType)
    ensures data.Some? ==> GetContentDisposition(r) == ReadOrNull(data.value.disposition)
    ensures data.None? ==> r.headers == msg.headers
    ensures forall n :: n != HeaderContentType && n != HeaderContentDisposition ==> GetHeader(r.headers, n) == GetHeader(msg.headers, n)
    ensures r.partnership == msg.partnership && r.mdn == msg.mdn
  {
    var stored := msg.(data := data);
    var mirrored :=
      if data.Some? then
        var typed := SetContentType(stored, ReadOrNull(data.value.contentType));
        SetContentDisposition(typed, ReadOrNull(data.value.disposition))
      else stored;
    if item.Some? then mirrored.(history := mirrored.history + [item.value]) else mirrored
  }

  /** What the one-argument `setData` throws: the `NullPointerException` of the
      argument check, or a `WrappedException` around the `MessagingException` of
      reading the content type. */
  datatype SetDataError = NullData | WrappedReadFailure

  /** `setData (data)`: the message after the call, and the new history item or the
      exception. The item is built from the body's content type before anything is
      stored, so a failing read leaves the message untouched. */
  function SetDataTracked(msg: Message, data: Option<MimeBody>): (r: (Message, Result<HistoryItem, SetDataError>))
    ensures data.None? ==> r == (msg, Failure(NullData))
    ensures data.Some? && data.value.contentType.Unreadable? ==> r == (msg, Failure(WrappedReadFailure))
    ensures r.1.Success? <==> data.Some? && data.value.contentType.Readable?
    ensures r.1.Success? ==>
              && r.1.value.contentType == data.value.contentType.value
              && r.0.data == data
              && r.0.history == msg.history + [r.1.value]
              && GetContentType(r.0) == r.1.value.contentType
    ensures r.1.Success? ==> r.0 == SetData(msg, data, Some(r.1.value))
  {
    match data
    case None => (msg, Failure(NullData))
    case Some(body) =>
      match body.contentType
      case Unreadable => (msg, Failure(WrappedReadFailure))
      case Readable(t) =>
        var item := HistoryItem(t);
        (SetData(msg, data, Some(item)), Success(item))
  }

  /** A run of `setData` calls, each with a body and a history item. */
  function SetDataAll(msg: Message, calls: seq<(Option<MimeBody>, Option<HistoryItem>)>): Message
    decreases |calls|
  {
    if calls == [] then msg else SetDataAll(SetData(msg, calls[0].0, calls[0].1), calls[1..])
  }

  /** The non-null history items of a run of calls, in call order. */
  function ItemsOf(calls: seq<(Option<MimeBody>, Option<HistoryItem>)>): seq<HistoryItem> {
    if calls == [] then [] else (if calls[0].1.Some? then [calls[0].1.value] else []) + ItemsOf(calls[1..])
  }

  /** With an item in every call, every call contributes exactly one item. */
  lemma {:induction false} EveryCallContributes(calls: seq<(Option<MimeBody>, Option<HistoryItem>)>)
    requires forall i :: 0 <= i < |calls| ==> calls[i].1.Some?
    ensures |ItemsOf(calls)| == |calls|
  {
    if calls != [] {
      assert forall i :: 0 <= i < |calls[1..]| ==> calls[1..][i] == calls[i + 1];
      EveryCallContributes(calls[1..]);
    }
  }

  /** The history is append-only: after any run of `setData` calls it is the old
      history followed by exactly the supplied items, in call order; with an item in
      every call it grows by exactly the number of calls. */
  lemma {:induction false} HistoryIsAppendOnly(msg: Message, calls: seq<(Option<MimeBody>, Option<HistoryItem>)>)
    ensures SetDataAll(msg, calls).history == msg.history + ItemsOf(calls)
    ensures (forall i :: 0 <= i < |calls| ==> calls[i].1.Some?) ==> |SetDataAll(msg, calls).history| == |msg.history| + |calls|
    decreases |calls|
  {
    if calls != [] {
      var next := SetData(msg, calls[0].0, calls[0].1);
      HistoryIsAppendOnly(next, calls[1..]);
      assert next.history == msg.history + (if calls[0].1.Some? then [calls[0].1.value] else []);
      assert ItemsOf(calls) == (if calls[0].1.Some? then [calls[0].1.value] else []) + ItemsOf(calls[1..]);
    }
    if forall i :: 0 <= i < |calls| ==> calls[i].1.Some? {
      EveryCallContributes(calls);
    }
  }
}
