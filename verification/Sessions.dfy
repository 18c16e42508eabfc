/** What a connection does with the messages it receives, as functions on its session. */
module Sessions {
  import opened Bytes
  import opened Values
  import opened Signatures
  import opened PackStream
  import opened Framing
  import opened Storage

  // Return codes. Zero is both success and "summary fetched".
  const OK := 0
  const PROTOCOL_VIOLATION := 0x500
  const UNSUPPORTED_TYPE := 0x501
  const UNEXPECTED_MARKER := 0x503
  const FETCH_ERROR := -1
  const FETCH_SUMMARY := 0
  const FETCH_RECORD := 1

  function CodeOf(status: Status): (code: int)
    ensures code >= 0 && (code == OK <==> status == Success)
    ensures code != FETCH_RECORD
  {
    match status
    case Success => OK
    case Violation => PROTOCOL_VIOLATION
    case UnsupportedType => UNSUPPORTED_TYPE
    case UnexpectedMarker => UNEXPECTED_MARKER
  }

  /** The error code and message the server last gave, as far as they were strings. */
  datatype Failure = Failure(code: Value, message: Value)

  /** The part of the protocol state that replies change. Pending holds the bytes of a
      message not yet unloaded; it is empty between messages unless one was malformed. */
  datatype Session = Session(
    pending: Octets,
    responses: nat,
    dataType: int,
    data: Value,
    failure: Option<Failure>,
    metadata: seq<Value>,
    fieldNames: Option<seq<Value>>)

  const NewSession := Session([], 0, RECORD, Null, None, [], None)

  function Fields(s: Session): seq<Value>
  {
    if s.data.List? then s.data.items else []
  }

  // ---------------------------------------------------------------- one message

  /** Undetermined stands for a run that goes on from a variable no read has filled. */
  datatype Reaction = Reacted(code: int, session: Session) | Undetermined

  function UnloadMessage(check: Check, s: Session): Reaction
  {
    var bytes := s.pending;
    if bytes == [] then Reacted(OK, s)
    else if MarkerTypeOf(bytes[0]) != StructureMark then Reacted(PROTOCOL_VIOLATION, s.(pending := bytes[1..]))
    else if |bytes| < 2 then Reacted(FETCH_ERROR, s.(pending := []))
    else
      match DecodeMany(check, true, ListSlots(s.data, bytes[0] % 0x10), bytes[2..])
      case UndefinedMany => Undetermined
      case ParsedMany(status, fields, rest) =>
        Reacted(CodeOf(status), s.(pending := rest, dataType := bytes[1], data := List(fields)))
  }

  const BOOKMARK_KEY: Octets := [0x62, 0x6F, 0x6F, 0x6B, 0x6D, 0x61, 0x72, 0x6B]
  const FIELDS_KEY: Octets := [0x66, 0x69, 0x65, 0x6C, 0x64, 0x73]
  const SERVER_KEY: Octets := [0x73, 0x65, 0x72, 0x76, 0x65, 0x72]
  const CONNECTION_ID_KEY: Octets :=
    [0x63, 0x6F, 0x6E, 0x6E, 0x65, 0x63, 0x74, 0x69, 0x6F, 0x6E, 0x5F, 0x69, 0x64]
  const CODE_KEY: Octets := [0x63, 0x6F, 0x64, 0x65]
  const MESSAGE_KEY: Octets := [0x6D, 0x65, 0x73, 0x73, 0x61, 0x67, 0x65]

  function StringsOnly(vs: seq<Value>): (r: seq<Value>)
    ensures |r| == |vs| && forall i :: 0 <= i < |vs| ==> r[i] == if vs[i].String? then vs[i] else Null
  {
    seq(|vs|, i requires 0 <= i < |vs| => if vs[i].String? then vs[i] else Null)
  }

  function Ensured(failure: Option<Failure>): Failure
  {
    match failure
    case None => Failure(Null, Null)
    case Some(f) => f
  }

  /** One entry of a summary's metadata. Bookmark, server and connection id go to text
      buffers that are not modelled; the connection id key is known to version 3 only. */
  function ExtractEntry(version: Version, s: Session, key: Value, value: Value): Session
  {
    if key == String(BOOKMARK_KEY) || key == String(SERVER_KEY) then s
    else if key == String(FIELDS_KEY) then
      if value.List? then s.(fieldNames := Some(StringsOnly(value.items))) else s
    else if version == V3 && key == String(CONNECTION_ID_KEY) then s
    else if key == String(CODE_KEY) && s.dataType == FAILURE then
      if value.String? then s.(failure := Some(Ensured(s.failure).(code := value))) else s
    else if key == String(MESSAGE_KEY) && s.dataType == FAILURE then
      if value.String? then s.(failure := Some(Ensured(s.failure).(message := value))) else s
    else s.(metadata := s.metadata + [key, value])
  }

  function ExtractFrom(version: Version, s: Session, pairs: seq<Value>, i: nat): Session
    requires 2 * i <= |pairs|
    decreases |pairs| - 2 * i
  {
    if 2 * i + 1 >= |pairs| then s
    else ExtractFrom(version, ExtractEntry(version, s, pairs[2 * i], pairs[2 * i + 1]), pairs, i + 1)
  }

  /** A summary moves the response counter on and replaces the metadata. */
  function Summarised(version: Version, s: Session): Session
  {
    var counted := s.(responses := s.responses + 1, metadata := []);
    if Fields(s) != [] && Fields(s)[0].Dictionary? then ExtractFrom(version, counted, Fields(s)[0].pairs, 0)
    else counted
  }

  /** Takes in one whole message. */
  function Consume(version: Version, s: Session, message: Octets): Reaction
  {
    React(version, s.(pending := s.pending + message))
  }

  function React(version: Version, s: Session): Reaction
  {
    match UnloadMessage(Readable(version), s)
    case Undetermined => Undetermined
    case Reacted(code, t) => Reacted(code, if code == OK && t.dataType != RECORD then Summarised(version, t) else t)
  }

  // ---------------------------------------------------------------- fetching

  /** The outcome of a fetch on a stream. Broken: the stream ended inside a message. */
  datatype Fetched = Fetched(code: int, session: Session, rest: Octets) | Broken | Lost

  function Fetch(version: Version, s: Session, stream: Octets, request: nat): (f: Fetched)
    ensures f.Fetched? ==> |f.rest| < |stream|
    decreases |stream|
  {
    match Dechunk(stream)
    case Partial => Broken
    case Whole(message, rest) =>
      match Consume(version, s, message)
      case Undetermined => Lost
      case Reacted(code, t) =>
        if code != OK then Fetched(code, t, rest)
        else if s.responses == request then
          Fetched(if t.dataType != RECORD then FETCH_SUMMARY else FETCH_RECORD, t, rest)
        else Fetch(version, t, rest, request)
  }

  datatype ConnectionState = Disconnected | Connected | Ready | Failed | Defunct

  /** The connection state after a summary, and whether the summary was a known one. */
  function StateAfterSummary(state: ConnectionState, s: Session): (ConnectionState, bool)
  {
    if s.dataType == SUCCESS then (Ready, true)
    else if s.dataType == IGNORED then (if s.failure.Some? then Failed else state, true)
    else if s.dataType == FAILURE then (Failed, true)
    else (Defunct, false)
  }

  datatype ConnectionFetched =
    | ConnectionFetched(code: int, state: ConnectionState, session: Session, rest: Octets)
    | ConnectionBroken
    | ConnectionLost

  function ConnectionFetch(version: Version, state: ConnectionState, s: Session, stream: Octets, request: nat)
    : (f: ConnectionFetched)
    ensures f.ConnectionFetched? ==> |f.rest| < |stream|
  {
    match Fetch(version, s, stream, request)
    case Broken => ConnectionBroken
    case Lost => ConnectionLost
    case Fetched(code, t, rest) =>
      if code != FETCH_SUMMARY then ConnectionFetched(code, state, t, rest)
      else
        var (after, known) := StateAfterSummary(state, t);
        ConnectionFetched(if known then FETCH_SUMMARY else FETCH_ERROR, after, t, rest)
  }

  /** Fetches until a summary or an error; the code of a summary is the number of records.
      A positive error code is added up as if it were records. */
  function FetchSummary(version: Version, state: ConnectionState, s: Session, stream: Octets, request: nat,
                        records: int): ConnectionFetched
    decreases |stream|
  {
    match ConnectionFetch(version, state, s, stream, request)
    case ConnectionBroken => ConnectionBroken
    case ConnectionLost => ConnectionLost
    case ConnectionFetched(code, after, t, rest) =>
      if code < 0 then ConnectionFetched(code, after, t, rest)
      else if code == 0 then ConnectionFetched(records, after, t, rest)
      else FetchSummary(version, after, t, rest, request, records + code)
  }
}
