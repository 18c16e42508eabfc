/** A server that answers each request with records and one summary, and what fetching
    makes of its answers. */
module Replies {
  import opened Bytes
  import opened Values
  import opened Signatures
  import opened PackStream
  import opened RoundTrip
  import opened Framing
  import opened Sessions

  /** The bytes of a message, in any encoding unload accepts, and what they say. */
  ghost predicate Denotes(check: Check, bytes: Octets, code: int, fields: seq<Value>)
  {
    |bytes| >= 2 && MarkerTypeOf(bytes[0]) == StructureMark && bytes[1] == code && bytes[0] % 0x10 == |fields| &&
    forall targets: seq<Value> :: |targets| == |fields| ==>
      DecodeMany(check, true, targets, bytes[2..]) == ParsedMany(Success, fields, [])
  }

  /** A message on its way: cut into chunks in any way. */
  datatype Reply = Reply(chunks: seq<Octets>, code: int, fields: seq<Value>)

  ghost predicate ValidReply(version: Version, r: Reply)
  {
    AreChunks(r.chunks) && Denotes(Readable(version), Flat(r.chunks), r.code, r.fields)
  }

  function ReplyBytes(r: Reply): Octets
    requires AreChunks(r.chunks)
  {
    Framed(r.chunks)
  }

  datatype Answer = Answer(records: seq<Reply>, summary: Reply)

  ghost predicate ValidRecords(version: Version, rs: seq<Reply>)
  {
    forall i :: 0 <= i < |rs| ==> ValidReply(version, rs[i]) && rs[i].code == RECORD
  }

  ghost predicate ValidAnswer(version: Version, a: Answer)
  {
    ValidRecords(version, a.records) && ValidReply(version, a.summary) &&
    a.summary.code in {SUCCESS, IGNORED, FAILURE}
  }

  ghost predicate ValidAnswers(version: Version, answers: seq<Answer>)
  {
    forall i :: 0 <= i < |answers| ==> ValidAnswer(version, answers[i])
  }

  ghost function RecordBytes(version: Version, rs: seq<Reply>): Octets
    requires ValidRecords(version, rs)
  {
    if rs == [] then [] else ReplyBytes(rs[0]) + RecordBytes(version, rs[1..])
  }

  ghost function AnswerBytes(version: Version, a: Answer): Octets
    requires ValidAnswer(version, a)
  {
    RecordBytes(version, a.records) + ReplyBytes(a.summary)
  }

  ghost function Stream(version: Version, answers: seq<Answer>): Octets
    requires ValidAnswers(version, answers)
  {
    if answers == [] then [] else AnswerBytes(version, answers[0]) + Stream(version, answers[1..])
  }

  // ---------------------------------------------------------------- one reply

  /** The session after a reply has been taken in. */
  function After(version: Version, s: Session, r: Reply): Session
  {
    var t := s.(dataType := r.code, data := List(r.fields));
    if r.code != RECORD then Summarised(version, t) else t
  }

  lemma ConsumeReply(version: Version, s: Session, r: Reply)
    requires s.pending == [] && ValidReply(version, r)
    ensures Consume(version, s, Flat(r.chunks)) == Reacted(OK, After(version, s, r))
  {
    var bytes := Flat(r.chunks);
    var full := s.(pending := [] + bytes);
    assert [] + bytes == bytes;
    var slots := ListSlots(s.data, |r.fields|);
    assert DecodeMany(Readable(version), true, slots, bytes[2..]) == ParsedMany(Success, r.fields, []);
    assert UnloadMessage(Readable(version), full) ==
           Reacted(OK, s.(pending := [], dataType := r.code, data := List(r.fields)));
  }

  lemma {:induction false} ExtractKeeps(version: Version, s: Session, pairs: seq<Value>, i: nat)
    requires 2 * i <= |pairs|
    ensures var t := ExtractFrom(version, s, pairs, i);
            t.pending == s.pending && t.responses == s.responses && t.dataType == s.dataType && t.data == s.data
    decreases |pairs| - 2 * i
  {
    if 2 * i + 1 < |pairs| {
      ExtractKeeps(version, ExtractEntry(version, s, pairs[2 * i], pairs[2 * i + 1]), pairs, i + 1);
    }
  }

  /** A reply is counted exactly when it is a summary, and leaves nothing pending. */
  lemma AfterCounts(version: Version, s: Session, r: Reply)
    requires s.pending == []
    ensures var t := After(version, s, r);
            t.pending == [] && t.dataType == r.code && t.data == List(r.fields) &&
            t.responses == s.responses + if r.code != RECORD then 1 else 0
  {
    if r.code != RECORD && r.fields != [] && r.fields[0].Dictionary? {
      var t := s.(dataType := r.code, data := List(r.fields), responses := s.responses + 1, metadata := []);
      ExtractKeeps(version, t, r.fields[0].pairs, 0);
    }
  }

  /** Fetching for a later request passes over a reply; fetching for the current one stops. */
  lemma FetchReply(version: Version, s: Session, r: Reply, tail: Octets, request: nat)
    requires s.pending == [] && ValidReply(version, r)
    ensures Fetch(version, s, ReplyBytes(r) + tail, request) ==
            if s.responses == request
            then Fetched(if r.code != RECORD then FETCH_SUMMARY else FETCH_RECORD, After(version, s, r), tail)
            else Fetch(version, After(version, s, r), tail, request)
  {
    DechunkFramed(r.chunks, tail);
    ConsumeReply(version, s, r);
    AfterCounts(version, s, r);
  }

  // ---------------------------------------------------------------- answers to earlier requests

  function AfterRecords(version: Version, s: Session, rs: seq<Reply>): Session
    decreases |rs|
  {
    if rs == [] then s else AfterRecords(version, After(version, s, rs[0]), rs[1..])
  }

  function AfterAnswer(version: Version, s: Session, a: Answer): Session
  {
    After(version, AfterRecords(version, s, a.records), a.summary)
  }

  lemma {:induction false} AfterRecordsCounts(version: Version, s: Session, rs: seq<Reply>)
    requires s.pending == [] && ValidRecords(version, rs)
    ensures var t := AfterRecords(version, s, rs);
            t.pending == [] && t.responses == s.responses && t.failure == s.failure
    decreases |rs|
  {
    if rs != [] {
      AfterCounts(version, s, rs[0]);
      AfterRecordsCounts(version, After(version, s, rs[0]), rs[1..]);
    }
  }

  lemma RecordsSplit(version: Version, rs: seq<Reply>, tail: Octets)
    requires ValidRecords(version, rs) && rs != []
    ensures RecordBytes(version, rs) + tail == ReplyBytes(rs[0]) + (RecordBytes(version, rs[1..]) + tail)
  {
    Associative(ReplyBytes(rs[0]), RecordBytes(version, rs[1..]), tail);
  }

  lemma {:induction false} SkipRecords(version: Version, s: Session, rs: seq<Reply>, tail: Octets, request: nat)
    requires s.pending == [] && ValidRecords(version, rs) && s.responses != request
    ensures Fetch(version, s, RecordBytes(version, rs) + tail, request) ==
            Fetch(version, AfterRecords(version, s, rs), tail, request)
    decreases |rs|
  {
    if rs == [] {
      assert RecordBytes(version, rs) + tail == tail;
    } else {
      var others := RecordBytes(version, rs[1..]) + tail;
      RecordsSplit(version, rs, tail);
      FetchReply(version, s, rs[0], others, request);
      AfterCounts(version, s, rs[0]);
      SkipRecords(version, After(version, s, rs[0]), rs[1..], tail, request);
    }
  }

  lemma SkipAnswer(version: Version, s: Session, a: Answer, tail: Octets, request: nat)
    requires s.pending == [] && ValidAnswer(version, a) && s.responses != request
    ensures Fetch(version, s, AnswerBytes(version, a) + tail, request) ==
            Fetch(version, AfterAnswer(version, s, a), tail, request)
    ensures AfterAnswer(version, s, a).pending == [] && AfterAnswer(version, s, a).responses == s.responses + 1
  {
    var others := ReplyBytes(a.summary) + tail;
    assert AnswerBytes(version, a) + tail == RecordBytes(version, a.records) + others;
    SkipRecords(version, s, a.records, others, request);
    AfterRecordsCounts(version, s, a.records);
    var t := AfterRecords(version, s, a.records);
    FetchReply(version, t, a.summary, tail, request);
    AfterCounts(version, t, a.summary);
  }

  // ---------------------------------------------------------------- what a summary does

  /** The type of a summary decides the state of the connection: SUCCESS (0x70) makes it Ready
      and FAILURE (0x7F) Failed; IGNORED (0x7E) makes it Failed if a failure is remembered;
      anything else is an error and makes it Defunct. A record or an error leaves it alone. */
  lemma SummaryDecidesState(version: Version, state: ConnectionState, s: Session, stream: Octets, request: nat)
    requires Fetch(version, s, stream, request).Fetched?
    ensures var Fetched(code, t, rest) := Fetch(version, s, stream, request);
            ConnectionFetch(version, state, s, stream, request) ==
            if code != 0 then ConnectionFetched(code, state, t, rest)
            else if t.dataType == 0x70 then ConnectionFetched(0, Ready, t, rest)
            else if t.dataType == 0x7F then ConnectionFetched(0, Failed, t, rest)
            else if t.dataType == 0x7E then ConnectionFetched(0, if t.failure.Some? then Failed else state, t, rest)
            else ConnectionFetched(-1, Defunct, t, rest)
  {
    hide Fetch;
  }

  // ---------------------------------------------------------------- fetching a whole answer

  /** What is left of the connection's state once the answer to its request is in. */
  ghost predicate Finished(version: Version, f: ConnectionFetched, records: int, summary: Reply, state: ConnectionState,
                           responses: nat, rest: Octets)
  {
    f.ConnectionFetched? && f.code == records && f.rest == rest && f.session.pending == [] &&
    f.session.responses == responses && f.session.dataType == summary.code &&
    f.session.data == List(summary.fields) &&
    f.state == if summary.code == 0x70 then Ready
               else if summary.code == 0x7F || f.session.failure.Some? then Failed
               else state
  }

  lemma SummaryAfterRecord(version: Version, state: ConnectionState, s: Session, stream: Octets, request: nat,
                           records: int, t: Session, rest: Octets)
    requires Fetch(version, s, stream, request) == Fetched(FETCH_RECORD, t, rest)
    ensures FetchSummary(version, state, s, stream, request, records) ==
            FetchSummary(version, state, t, rest, request, records + 1)
  {
  }

  lemma SummaryAtOnce(version: Version, state: ConnectionState, s: Session, stream: Octets, request: nat,
                      records: int, t: Session, rest: Octets)
    requires Fetch(version, s, stream, request) == Fetched(FETCH_SUMMARY, t, rest)
    requires t.dataType in {SUCCESS, IGNORED, FAILURE}
    ensures FetchSummary(version, state, s, stream, request, records) ==
            ConnectionFetched(records, StateAfterSummary(state, t).0, t, rest)
  {
  }

  /** Fetching a summary, fetch by fetch. */
  lemma FetchSummaryCases(version: Version, state: ConnectionState, s: Session, stream: Octets, request: nat,
                          records: int)
    ensures var all := FetchSummary(version, state, s, stream, request, records);
            match Fetch(version, s, stream, request)
            case Broken => all == ConnectionBroken
            case Lost => all == ConnectionLost
            case Fetched(code, t, rest) =>
              if code < 0 then all == ConnectionFetched(code, state, t, rest)
              else if code > 0 then all == FetchSummary(version, state, t, rest, request, records + code)
              else
                var (after, known) := StateAfterSummary(state, t);
                all == ConnectionFetched(if known then records else FETCH_ERROR, after, t, rest)
  {
    hide Fetch;
    match Fetch(version, s, stream, request)
    case Fetched(code, t, rest) => assert ConnectionFetch(version, state, s, stream, request).ConnectionFetched?;
    case _ =>
  }

  /** Sessions and streams that fetch alike summarise alike. */
  lemma SummaryFollowsFetch(version: Version, state: ConnectionState, s: Session, stream: Octets, t: Session,
                            rest: Octets, request: nat, records: int)
    requires Fetch(version, s, stream, request) == Fetch(version, t, rest, request)
    ensures FetchSummary(version, state, s, stream, request, records) ==
            FetchSummary(version, state, t, rest, request, records)
  {
    hide Fetch, FetchSummary;
    FetchSummaryCases(version, state, s, stream, request, records);
    FetchSummaryCases(version, state, t, rest, request, records);
  }

  lemma FinishedAtOnce(version: Version, state: ConnectionState, s: Session, summary: Reply, tail: Octets, records: int)
    requires s.pending == [] && ValidReply(version, summary) && summary.code in {SUCCESS, IGNORED, FAILURE}
    ensures Finished(version,
                     FetchSummary(version, state, s, ReplyBytes(summary) + tail, s.responses, records),
                     records, summary, state, s.responses + 1, tail)
  {
    FetchReply(version, s, summary, tail, s.responses);
    AfterCounts(version, s, summary);
    SummaryAtOnce(version, state, s, ReplyBytes(summary) + tail, s.responses, records, After(version, s, summary), tail);
  }

  lemma {:induction false} SummaryOfCurrent(version: Version, state: ConnectionState, s: Session, rs: seq<Reply>,
                                            summary: Reply, tail: Octets, records: int)
    requires s.pending == [] && ValidRecords(version, rs) && ValidReply(version, summary)
    requires summary.code in {SUCCESS, IGNORED, FAILURE}
    ensures Finished(version,
                     FetchSummary(version, state, s, RecordBytes(version, rs) + (ReplyBytes(summary) + tail),
                                  s.responses, records),
                     records + |rs|, summary, state, s.responses + 1, tail)
    decreases |rs|
  {
    var last := ReplyBytes(summary) + tail;
    if rs == [] {
      assert RecordBytes(version, rs) + last == last;
      FinishedAtOnce(version, state, s, summary, tail, records);
    } else {
      var others := RecordBytes(version, rs[1..]) + last;
      RecordsSplit(version, rs, last);
      FetchReply(version, s, rs[0], others, s.responses);
      AfterCounts(version, s, rs[0]);
      SummaryAfterRecord(version, state, s, RecordBytes(version, rs) + last, s.responses, records,
                         After(version, s, rs[0]), others);
      SummaryOfCurrent(version, state, After(version, s, rs[0]), rs[1..], summary, tail, records + 1);
    }
  }

  lemma StreamSplit(version: Version, answers: seq<Answer>, tail: Octets)
    requires ValidAnswers(version, answers) && answers != []
    ensures var a, others := answers[0], Stream(version, answers[1..]) + tail;
            Stream(version, answers) + tail == AnswerBytes(version, a) + others &&
            AnswerBytes(version, a) + others == RecordBytes(version, a.records) + (ReplyBytes(a.summary) + others)
  {
    var a := answers[0];
    Associative(AnswerBytes(version, a), Stream(version, answers[1..]), tail);
    Associative(RecordBytes(version, a.records), ReplyBytes(a.summary), Stream(version, answers[1..]) + tail);
  }

  /** For any request not yet answered, fetching its summary returns exactly the number of
      its records, passes over everything owed to earlier requests, stops right behind its
      summary and leaves the response counter just past it. The first answer holds what is
      still unread of the request the counter stands at. */
  lemma {:induction false} SummaryCountsRecords(version: Version, state: ConnectionState, s: Session,
                                                answers: seq<Answer>, tail: Octets, request: nat)
    requires s.pending == [] && ValidAnswers(version, answers)
    requires s.responses <= request < s.responses + |answers|
    ensures var i := request - s.responses;
            Finished(version, FetchSummary(version, state, s, Stream(version, answers) + tail, request, 0),
                     |answers[i].records|, answers[i].summary, state, request + 1,
                     Stream(version, answers[i + 1..]) + tail)
    decreases |answers|
  {
    hide Fetch, FetchSummary, ReplyBytes, RecordBytes;
    var a, others := answers[0], Stream(version, answers[1..]) + tail;
    StreamSplit(version, answers, tail);
    if s.responses == request {
      SummaryOfCurrent(version, state, s, a.records, a.summary, others, 0);
    } else {
      SkipAnswer(version, s, a, others, request);
      SummaryFollowsFetch(version, state, s, AnswerBytes(version, a) + others, AfterAnswer(version, s, a), others,
                          request, 0);
      SummaryCountsRecords(version, state, AfterAnswer(version, s, a), answers[1..], tail, request);
      assert answers[1..][request - s.responses - 1 + 1..] == answers[request - s.responses + 1..];
    }
  }

  // ---------------------------------------------------------------- messages load writes

  lemma LoadedFieldsDecode(writer: Check, reader: Check, fields: seq<Value>, targets: seq<Value>)
    requires AllRepresentable(fields) && AllLoad(writer, fields) && AllRecoverable(reader, fields)
    requires |targets| == |fields|
    ensures DecodeMany(reader, true, targets, EmitAll(writer, fields).bytes) == ParsedMany(Success, fields, [])
  {
    LoadThenUnloadAll(writer, reader, true, fields, targets, []);
    assert EmitAll(writer, fields).bytes + [] == EmitAll(writer, fields).bytes;
  }

  /** What the client writes for a message denotes it to any peer that reads its values. */
  lemma LoadedMessageDenotes(writer: Check, reader: Check, code: int, fields: seq<Value>)
    requires Representable(Structure(code, fields)) && Loads(writer, Structure(code, fields))
    requires |fields| < 0x10 && AllRecoverable(reader, fields)
    ensures Denotes(reader, Emit(writer, Structure(code, fields)).bytes, code, fields)
  {
    StructureHeaderBytes(writer, code, |fields|);
    var header, elements := StructureHeader(code, |fields|).bytes, EmitAll(writer, fields).bytes;
    assert (header + elements)[2..] == elements;
    forall targets: seq<Value> | |targets| == |fields|
      ensures DecodeMany(reader, true, targets, elements) == ParsedMany(Success, fields, [])
    {
      LoadedFieldsDecode(writer, reader, fields, targets);
    }
  }
}
