/** What the number that fetching a summary returns has to do with the records there were. */
module Counting {
  import opened Bytes
  import opened Values
  import opened Signatures
  import opened PackStream
  import opened Framing
  import opened Sessions
  import opened Replies

  /** A message taken in: the bytes that were unloaded, what came of it, and the session
      before and after. */
  datatype Taken = Taken(bytes: Octets, code: int, before: Session, after: Session)

  /** The first n messages of a stream, taken in one after another. */
  function TakenIn(version: Version, s: Session, stream: Octets, n: nat): (ts: seq<Taken>)
    ensures |ts| <= n
    decreases n
  {
    if n == 0 then []
    else
      match Dechunk(stream)
      case Partial => []
      case Whole(message, rest) =>
        match Consume(version, s, message)
        case Undetermined => []
        case Reacted(code, t) => [Taken(s.pending + message, code, s, t)] + TakenIn(version, t, rest, n - 1)
  }

  predicate Unloads(t: Taken)
  {
    t.code == OK
  }

  predicate AllUnload(ts: seq<Taken>)
  {
    forall i :: 0 <= i < |ts| ==> Unloads(ts[i])
  }

  /** A record of the request, counted as one. */
  predicate IsRecordOf(t: Taken, request: nat)
  {
    Unloads(t) && t.before.responses == request && t.after.dataType == RECORD
  }

  /** The message says it is something else than a record. An empty one repeats the type of
      the message before. */
  predicate IsSummary(t: Taken)
  {
    if t.bytes == [] then t.before.dataType != RECORD
    else |t.bytes| >= 2 && MarkerTypeOf(t.bytes[0]) == StructureMark && t.bytes[1] != RECORD
  }

  predicate SummariesUnload(ts: seq<Taken>)
  {
    forall i :: 0 <= i < |ts| && IsSummary(ts[i]) ==> Unloads(ts[i])
  }

  function Records(ts: seq<Taken>, request: nat): (n: nat)
    ensures n <= |ts|
  {
    if ts == [] then 0 else (if IsRecordOf(ts[0], request) then 1 else 0) + Records(ts[1..], request)
  }

  function Summaries(ts: seq<Taken>): (n: nat)
    ensures n <= |ts|
  {
    if ts == [] then 0 else (if IsSummary(ts[0]) then 1 else 0) + Summaries(ts[1..])
  }

  // ---------------------------------------------------------------- one message

  /** The response counter goes up for a summary that unloads, and for nothing else. */
  lemma CountsSummary(version: Version, s: Session, message: Octets)
    requires Consume(version, s, message).Reacted?
    ensures var r := Consume(version, s, message);
            var t := Taken(s.pending + message, r.code, s, r.session);
            (r.code == OK ==> (IsSummary(t) <==> r.session.dataType != RECORD)) &&
            r.session.responses == s.responses + if IsSummary(t) && Unloads(t) then 1 else 0
  {
    match UnloadMessage(Readable(version), s.(pending := s.pending + message))
    case Reacted(code, t) =>
      if code == OK && t.dataType != RECORD && Fields(t) != [] && Fields(t)[0].Dictionary? {
        ExtractKeeps(version, t.(responses := t.responses + 1, metadata := []), Fields(t)[0].pairs, 0);
      }
  }

  /** The code of a message that does not unload ends the fetch or is taken for that many
      records. */
  lemma ErrorCodes(version: Version, s: Session, message: Octets)
    requires Consume(version, s, message).Reacted?
    ensures var code := Consume(version, s, message).code;
            code == OK || code == FETCH_ERROR || code >= PROTOCOL_VIOLATION
  {
  }

  lemma FetchStep(version: Version, s: Session, stream: Octets, request: nat)
    requires Dechunk(stream).Whole? && Consume(version, s, Dechunk(stream).message).Reacted?
    ensures var rest := Dechunk(stream).rest;
            var Reacted(code, t) := Consume(version, s, Dechunk(stream).message);
            Fetch(version, s, stream, request) ==
            if code != OK then Fetched(code, t, rest)
            else if s.responses == request
            then Fetched(if t.dataType != RECORD then FETCH_SUMMARY else FETCH_RECORD, t, rest)
            else Fetch(version, t, rest, request)
  {
  }

  /** Fetching a summary, message by message. */
  lemma SummaryStep(version: Version, state: ConnectionState, s: Session, stream: Octets, request: nat, records: int)
    requires Dechunk(stream).Whole? && Consume(version, s, Dechunk(stream).message).Reacted?
    ensures var rest := Dechunk(stream).rest;
            var Reacted(code, t) := Consume(version, s, Dechunk(stream).message);
            var all := FetchSummary(version, state, s, stream, request, records);
            if code < 0 then all == ConnectionFetched(code, state, t, rest)
            else if code > 0 then all == FetchSummary(version, state, t, rest, request, records + code)
            else if s.responses != request then all == FetchSummary(version, state, t, rest, request, records)
            else if t.dataType == RECORD then all == FetchSummary(version, state, t, rest, request, records + 1)
            else
              var (after, known) := StateAfterSummary(state, t);
              all == ConnectionFetched(if known then records else FETCH_ERROR, after, t, rest)
  {
    hide Fetch, Dechunk, Consume;
    FetchStep(version, s, stream, request);
    var rest := Dechunk(stream).rest;
    var Reacted(code, t) := Consume(version, s, Dechunk(stream).message);
    if code == OK && s.responses != request {
      SummaryFollowsFetch(version, state, s, stream, t, rest, request, records);
    }
  }

  lemma StreamNotOver(version: Version, state: ConnectionState, s: Session, stream: Octets, request: nat, records: int)
    requires FetchSummary(version, state, s, stream, request, records).ConnectionFetched?
    ensures Dechunk(stream).Whole? && Consume(version, s, Dechunk(stream).message).Reacted?
  {
    assert ConnectionFetch(version, state, s, stream, request).ConnectionFetched?;
    assert Fetch(version, s, stream, request).Fetched?;
  }

  // ---------------------------------------------------------------- whole calls

  function CountedSummaries(ts: seq<Taken>): (n: nat)
  {
    if ts == [] then 0 else (if IsSummary(ts[0]) && Unloads(ts[0]) then 1 else 0) + CountedSummaries(ts[1..])
  }

  lemma {:induction false} SummariesCountedExactlyWhen(ts: seq<Taken>)
    ensures CountedSummaries(ts) <= Summaries(ts)
    ensures CountedSummaries(ts) == Summaries(ts) <==> SummariesUnload(ts)
  {
    if ts != [] {
      SummariesCountedExactlyWhen(ts[1..]);
      assert SummariesUnload(ts) <==> (IsSummary(ts[0]) ==> Unloads(ts[0])) && SummariesUnload(ts[1..]) by {
        assert ts == [ts[0]] + ts[1..];
      }
    }
  }

  lemma {:induction false} SummaryTakesIn(version: Version, state: ConnectionState, s: Session, stream: Octets,
                                          request: nat, records: nat) returns (n: nat)
    requires FetchSummary(version, state, s, stream, request, records).ConnectionFetched?
    ensures var f := FetchSummary(version, state, s, stream, request, records);
            var ts := TakenIn(version, s, stream, n);
            |ts| == n > 0 && ts[n - 1].after == f.session &&
            f.session.responses == s.responses + CountedSummaries(ts) &&
            (f.code >= 0 ==>
               if AllUnload(ts) then f.code == records + Records(ts, request)
               else f.code >= records + Records(ts, request) + PROTOCOL_VIOLATION)
    decreases |stream|
  {
    hide FetchSummary, Consume, Dechunk, TakenIn, Records, CountedSummaries, AllUnload;
    StreamNotOver(version, state, s, stream, request, records);
    SummaryStep(version, state, s, stream, request, records);
    var message, rest := Dechunk(stream).message, Dechunk(stream).rest;
    var Reacted(code, t) := Consume(version, s, message);
    var first := Taken(s.pending + message, code, s, t);
    CountsSummary(version, s, message);
    ErrorCodes(version, s, message);
    if code < 0 || (code == OK && s.responses == request && t.dataType != RECORD) {
      n := 1;
      NothingTaken(version, t, rest, request);
      OneTaken(version, s, stream, first, [], 0, request);
    } else {
      var more := if code == OK && s.responses != request then 0 else if code == OK then 1 else code;
      var m := SummaryTakesIn(version, state, t, rest, request, records + more);
      n := m + 1;
      OneTaken(version, s, stream, first, TakenIn(version, t, rest, m), m, request);
    }
  }

  lemma NothingTaken(version: Version, s: Session, stream: Octets, request: nat)
    ensures TakenIn(version, s, stream, 0) == []
    ensures AllUnload([]) && CountedSummaries([]) == 0 && Records([], request) == 0
  {
  }

  lemma OneTaken(version: Version, s: Session, stream: Octets, first: Taken, others: seq<Taken>, m: nat,
                 request: nat)
    requires Dechunk(stream).Whole?
    requires var r := Consume(version, s, Dechunk(stream).message);
             r.Reacted? && first == Taken(s.pending + Dechunk(stream).message, r.code, s, r.session)
    requires others == TakenIn(version, first.after, Dechunk(stream).rest, m)
    ensures TakenIn(version, s, stream, m + 1) == [first] + others
    ensures AllUnload([first] + others) <==> Unloads(first) && AllUnload(others)
    ensures CountedSummaries([first] + others) ==
            (if IsSummary(first) && Unloads(first) then 1 else 0) + CountedSummaries(others)
    ensures Records([first] + others, request) ==
            (if IsRecordOf(first, request) then 1 else 0) + Records(others, request)
  {
    assert TakenIn(version, s, stream, m + 1) == [first] + others;
    hide TakenIn, Consume, Dechunk;
    var ts := [first] + others;
    assert ts[0] == first && ts[1..] == others;
    assert forall i :: 0 < i < |ts| ==> ts[i] == others[i - 1];
    assert forall i :: 0 <= i < |others| ==> others[i] == ts[i + 1];
  }

  /** The number returned is the number of records of the request, exactly when every message
      up to the answering summary unloads; otherwise it is larger by at least 0x500. The
      response counter goes up by the number of summaries exactly when each of them unloads. */
  lemma CodeIsRecordCountExactlyWhen(version: Version, state: ConnectionState, s: Session, stream: Octets,
                                     request: nat) returns (n: nat)
    requires FetchSummary(version, state, s, stream, request, 0).ConnectionFetched?
    ensures var f := FetchSummary(version, state, s, stream, request, 0);
            var ts := TakenIn(version, s, stream, n);
            |ts| == n > 0 && ts[n - 1].after == f.session &&
            (f.session.responses == s.responses + Summaries(ts) <==> SummariesUnload(ts)) &&
            (f.code >= 0 ==> (f.code == Records(ts, request) <==> AllUnload(ts)))
    ensures var f := FetchSummary(version, state, s, stream, request, 0);
            var ts := TakenIn(version, s, stream, n);
            f.code >= 0 && !AllUnload(ts) ==> f.code >= Records(ts, request) + PROTOCOL_VIOLATION
  {
    n := SummaryTakesIn(version, state, s, stream, request, 0);
    SummariesCountedExactlyWhen(TakenIn(version, s, stream, n));
  }

  /** What a caller can rely on: a result below 0x500 is a true count, and then every summary
      taken in has been counted. */
  lemma SmallResultsAreCounts(version: Version, state: ConnectionState, s: Session, stream: Octets, request: nat)
    returns (n: nat)
    requires var f := FetchSummary(version, state, s, stream, request, 0);
             f.ConnectionFetched? && 0 <= f.code < PROTOCOL_VIOLATION
    ensures var f := FetchSummary(version, state, s, stream, request, 0);
            var ts := TakenIn(version, s, stream, n);
            |ts| == n > 0 && ts[n - 1].after == f.session && AllUnload(ts) &&
            f.code == Records(ts, request) && f.session.responses == s.responses + Summaries(ts)
  {
    n := CodeIsRecordCountExactlyWhen(version, state, s, stream, request);
  }

  // ---------------------------------------------------------------- malformed replies

  /** A reply of one field whose marker unload refuses. */
  lemma BadReply(version: Version, s: Session, code: Byte)
    requires s.pending == [] && !s.data.List?
    ensures Consume(version, s, [0xB1, code, 0xDC]) ==
            Reacted(UNEXPECTED_MARKER, s.(dataType := code, data := List([Null])))
  {
    var bytes: Octets := [0xB1, code, 0xDC];
    assert s.pending + bytes == bytes && bytes[2..] == [0xDC];
    assert ListSlots(s.data, 1) == [Null];
    assert Decode(Readable(version), Null, [0xDC]) == Parsed(UnexpectedMarker, Null, []);
    assert DecodeMany(Readable(version), true, [Null], [0xDC]) == ParsedMany(UnexpectedMarker, [Null], []);
  }

  /** A success without fields. */
  lemma BareSuccess(version: Version, s: Session)
    requires s.pending == []
    ensures Consume(version, s, [0xB0, SUCCESS]) ==
            Reacted(OK, s.(dataType := SUCCESS, data := List([]), responses := s.responses + 1, metadata := []))
  {
    var bytes: Octets := [0xB0, SUCCESS];
    assert s.pending + bytes == bytes && bytes[2..] == [];
    assert ListSlots(s.data, 0) == [];
    assert DecodeMany(Readable(version), true, [], []) == ParsedMany(Success, [], []);
  }

  /** A malformed record before the summary of its request adds its error code to the count;
      a malformed summary does so too, and is not counted, so that fetching its request
      swallows the summary of the next one. */
  lemma MalformedRepliesMiscount(version: Version, state: ConnectionState, code: Byte)
    requires code in {RECORD, SUCCESS}
    ensures var stream := Frame([0xB1, code, 0xDC]) + Frame([0xB0, SUCCESS]);
            var f := FetchSummary(version, state, NewSession, stream, 0, 0);
            f.ConnectionFetched? && f.code == UNEXPECTED_MARKER && f.state == Ready && f.rest == [] &&
            f.session.responses == 1
  {
    var bad, good: Octets := [0xB1, code, 0xDC], [0xB0, SUCCESS];
    var stream := Frame(bad) + Frame(good);
    FrameRoundTrip(bad, Frame(good));
    BadReply(version, NewSession, code);
    SummaryStep(version, state, NewSession, stream, 0, 0);
    var t := Consume(version, NewSession, bad).session;
    FrameRoundTrip(good, []);
    assert Frame(good) + [] == Frame(good);
    BareSuccess(version, t);
    SummaryStep(version, state, t, Frame(good), 0, UNEXPECTED_MARKER);
  }
}
