/** From the messages a client loads to the messages its peer reads. */
module EndToEnd {
  import opened Bytes
  import opened Values
  import opened Signatures
  import opened PackStream
  import opened RoundTrip
  import opened Framing
  import opened Storage
  import opened Sessions
  import opened Replies
  import opened Counting
  import opened Mem
  import opened Communication
  import opened Connections

  datatype Message = Message(code: int, fields: seq<Value>)

  /** A call on the client's connection. */
  datatype Call = LoadCall(message: Message) | SendCall

  function AsValue(m: Message): Value
  {
    Structure(m.code, m.fields)
  }

  predicate WellTyped(calls: seq<Call>)
  {
    forall i :: 0 <= i < |calls| && calls[i].LoadCall? ==> Representable(AsValue(calls[i].message))
  }

  function Encoded(version: Version, m: Message): Emitted
    requires Representable(AsValue(m))
  {
    Emit(Writable(version), AsValue(m))
  }

  /** The message a call loads, if it is a load and succeeds. */
  function LoadedBy(version: Version, call: Call): (ms: seq<Message>)
    requires call.LoadCall? ==> Representable(AsValue(call.message))
    ensures AllEncode(version, ms)
  {
    if call.LoadCall? && Encoded(version, call.message).status == Success then [call.message] else []
  }

  /** The messages whose loading succeeded, in order. */
  function Loaded(version: Version, calls: seq<Call>): (ms: seq<Message>)
    requires WellTyped(calls)
    ensures AllEncode(version, ms)
  {
    if calls == [] then [] else Loaded(version, calls[..|calls| - 1]) + LoadedBy(version, calls[|calls| - 1])
  }

  predicate AllEncode(version: Version, ms: seq<Message>)
  {
    forall i :: 0 <= i < |ms| ==> Representable(AsValue(ms[i])) && Encoded(version, ms[i]).status == Success
  }

  /** What loading a message puts on the wire. */
  function FrameOf(version: Version, m: Message): Octets
  {
    if Representable(AsValue(m)) && Encoded(version, m).status == Success then Frame(Encoded(version, m).bytes) else []
  }

  function Frames(version: Version, ms: seq<Message>): (fs: seq<Octets>)
    ensures |fs| == |ms| && forall i :: 0 <= i < |ms| ==> fs[i] == FrameOf(version, ms[i])
  {
    seq(|ms|, i requires 0 <= i < |ms| => FrameOf(version, ms[i]))
  }

  function Transmission(version: Version, ms: seq<Message>): Octets
  {
    Flat(Frames(version, ms))
  }

  lemma TransmissionConcat(version: Version, a: seq<Message>, b: seq<Message>)
    ensures Transmission(version, a + b) == Transmission(version, a) + Transmission(version, b)
  {
    assert Frames(version, a + b) == Frames(version, a) + Frames(version, b);
    FlatConcat(Frames(version, a), Frames(version, b));
  }

  /** A peer can read the message: fewer than 16 fields, whose structures are small and of
      types both sides know. */
  predicate Deliverable(version: Version, m: Message)
  {
    |m.fields| < 0x10 && AllRecoverable(Readable(version), m.fields)
  }

  /** The messages a peer gets by fetching request after request, from the one its response
      counter stands at, until a fetch brings no summary. */
  function Delivered(version: Version, s: Session, stream: Octets): seq<Message>
    decreases |stream|
  {
    match Fetch(version, s, stream, s.responses)
    case Fetched(code, t, rest) =>
      if code == FETCH_SUMMARY then [Message(t.dataType, Fields(t))] + Delivered(version, t, rest) else []
    case _ => []
  }

  /** The reply a loaded message is to the peer that reads it. */
  function AsReply(version: Version, m: Message): Reply
    requires Representable(AsValue(m))
  {
    Reply(Split(Encoded(version, m).bytes), m.code, m.fields)
  }

  lemma LoadedIsReply(version: Version, m: Message)
    requires Representable(AsValue(m)) && Encoded(version, m).status == Success && Deliverable(version, m)
    ensures ValidReply(version, AsReply(version, m)) && m.code != RECORD
    ensures ReplyBytes(AsReply(version, m)) == Frame(Encoded(version, m).bytes)
  {
    FlatSplit(Encoded(version, m).bytes);
    LoadedMessageDenotes(Writable(version), Readable(version), m.code, m.fields);
    RequestsAreNotReplies(version, m.code);
  }

  /** One fetch delivers the next message and advances the response counter by one. */
  lemma DeliverOne(version: Version, s: Session, m: Message, tail: Octets)
    requires Representable(AsValue(m)) && Encoded(version, m).status == Success && Deliverable(version, m)
    requires s.pending == []
    ensures var f := Fetch(version, s, Frame(Encoded(version, m).bytes) + tail, s.responses);
            f.Fetched? && f.code == FETCH_SUMMARY && f.rest == tail && f.session.pending == [] &&
            f.session.responses == s.responses + 1 && f.session.dataType == m.code && Fields(f.session) == m.fields
  {
    LoadedIsReply(version, m);
    Replies.FetchReply(version, s, AsReply(version, m), tail, s.responses);
    AfterCounts(version, s, AsReply(version, m));
  }

  lemma TransmissionSplit(version: Version, ms: seq<Message>, tail: Octets)
    requires AllEncode(version, ms) && ms != []
    ensures Transmission(version, ms) + tail ==
            Frame(Encoded(version, ms[0]).bytes) + (Transmission(version, ms[1..]) + tail)
  {
    assert Frames(version, ms)[1..] == Frames(version, ms[1..]);
    Associative(Frame(Encoded(version, ms[0]).bytes), Transmission(version, ms[1..]), tail);
  }

  predicate AllDeliverable(version: Version, ms: seq<Message>)
  {
    forall i :: 0 <= i < |ms| ==> Deliverable(version, ms[i])
  }

  /** The first message comes, if it is deliverable, and then the others. */
  lemma DeliverFirst(version: Version, s: Session, ms: seq<Message>, tail: Octets) returns (t: Session)
    requires AllEncode(version, ms) && ms != [] && Deliverable(version, ms[0]) && s.pending == []
    ensures t.pending == []
    ensures Delivered(version, s, Transmission(version, ms) + tail) ==
            [ms[0]] + Delivered(version, t, Transmission(version, ms[1..]) + tail)
  {
    TransmissionSplit(version, ms, tail);
    DeliverOne(version, s, ms[0], Transmission(version, ms[1..]) + tail);
    t := Fetch(version, s, Transmission(version, ms) + tail, s.responses).session;
  }

  /** What comes of the fields of a message that is not deliverable is something else. */
  lemma FieldsNotRecovered(version: Version, s: Session, m: Message)
    requires Representable(AsValue(m)) && Encoded(version, m).status == Success && !Deliverable(version, m)
    requires s.pending == []
    ensures match Consume(version, s, Encoded(version, m).bytes)
      case Undetermined => true
      case Reacted(code, t) => code == OK ==> Message(t.dataType, Fields(t)) != m
  {
    var bytes, fields := Encoded(version, m).bytes, m.fields;
    assert Children(AsValue(m)) == fields;
    StructureOpening(Writable(version), m.code, fields, []);
    var elements := EmitAll(Writable(version), fields).bytes;
    assert bytes + [] == bytes && elements + [] == elements && s.pending + bytes == bytes;
    assert bytes[1..][1..] == bytes[2..];
    if |fields| < 0x10 {
      NotAllRecovered(Writable(version), Readable(version), true, fields, ListSlots(s.data, |fields|), []);
    }
    KeepsMessage(version, s.(pending := bytes));
  }

  /** Counting a summary leaves its type and fields alone. */
  lemma KeepsMessage(version: Version, s: Session)
    ensures match UnloadMessage(Readable(version), s)
      case Undetermined => React(version, s) == Undetermined
      case Reacted(code, t) =>
        React(version, s).Reacted? && React(version, s).code == code &&
        React(version, s).session.dataType == t.dataType && React(version, s).session.data == t.data
  {
    match UnloadMessage(Readable(version), s)
    case Undetermined =>
    case Reacted(code, t) =>
      if Fields(t) != [] && Fields(t)[0].Dictionary? {
        ExtractKeeps(version, t.(responses := t.responses + 1, metadata := []), Fields(t)[0].pairs, 0);
      }
  }

  lemma NotDelivered(version: Version, s: Session, ms: seq<Message>, tail: Octets)
    requires AllEncode(version, ms) && ms != [] && !Deliverable(version, ms[0]) && s.pending == []
    ensures !(ms <= Delivered(version, s, Transmission(version, ms) + tail))
  {
    var m, others := ms[0], Transmission(version, ms[1..]) + tail;
    TransmissionSplit(version, ms, tail);
    FrameRoundTrip(Encoded(version, m).bytes, others);
    FieldsNotRecovered(version, s, m);
  }

  /** The peer recovers exactly the messages sent, in order, before whatever comes after them,
      if and only if each of them is deliverable. The k-th one is its answer to request k: the
      one that was given that number when it was loaded. */
  lemma {:induction false} PeerRecoversExactlyWhen(version: Version, s: Session, ms: seq<Message>, tail: Octets)
    requires AllEncode(version, ms) && s.pending == []
    ensures ms <= Delivered(version, s, Transmission(version, ms) + tail) <==> AllDeliverable(version, ms)
    decreases |ms|
  {
    hide Delivered, Fetch, Transmission, Encoded, Deliverable;
    if ms != [] {
      assert ms == [ms[0]] + ms[1..];
      if Deliverable(version, ms[0]) {
        var t := DeliverFirst(version, s, ms, tail);
        PeerRecoversExactlyWhen(version, t, ms[1..], tail);
        assert ms <= [ms[0]] + Delivered(version, t, Transmission(version, ms[1..]) + tail) <==>
               ms[1..] <= Delivered(version, t, Transmission(version, ms[1..]) + tail);
      } else {
        NotDelivered(version, s, ms, tail);
      }
    }
  }

  /** With nothing behind them, the messages sent are all there is. */
  lemma {:induction false} NothingElseDelivered(version: Version, s: Session, ms: seq<Message>)
    requires AllEncode(version, ms) && AllDeliverable(version, ms) && s.pending == []
    ensures Delivered(version, s, Transmission(version, ms)) == ms
    decreases |ms|
  {
    assert Transmission(version, ms) + [] == Transmission(version, ms);
    if ms == [] {
      assert Fetch(version, s, [], s.responses) == Broken;
    } else {
      var t := DeliverFirst(version, s, ms, []);
      assert Transmission(version, ms[1..]) + [] == Transmission(version, ms[1..]);
      NothingElseDelivered(version, t, ms[1..]);
    }
  }

  lemma DeliveredExactlyWhen(version: Version, s: Session, ms: seq<Message>)
    requires AllEncode(version, ms) && s.pending == []
    ensures Delivered(version, s, Transmission(version, ms)) == ms <==> AllDeliverable(version, ms)
  {
    assert Transmission(version, ms) + [] == Transmission(version, ms);
    PeerRecoversExactlyWhen(version, s, ms, []);
    if AllDeliverable(version, ms) {
      NothingElseDelivered(version, s, ms);
    }
  }

  // ---------------------------------------------------------------- the connections at work

  /** What has been handed to the transport and what still waits in the transmit buffer are
      together the frames of these messages, and the request ids given so far are theirs. */
  ghost predicate HasLoaded(version: Version, client: Connection, ms: seq<Message>)
    reads client, client.tx, client.tx.data, client.rx, client.wire, client.mem,
          client.protocol, client.protocol.tx, client.protocol.tx.data, client.protocol.rx
  {
    client.Valid() && client.protocol.version == version && client.protocol.tx.Contents() == [] &&
    AllEncode(version, ms) && client.protocol.nextRequestId == |ms| &&
    client.wire.outbound + client.tx.Contents() == Transmission(version, ms)
  }

  /** Runs the calls on a client over a transport that does not fail. The k-th message
      loaded is given request id k. */
  method RunClient(version: Version, client: Connection, calls: seq<Call>) returns (ids: seq<int>)
    requires HasLoaded(version, client, []) && client.wire.sends && WellTyped(calls)
    requires client.tx.Contents() == []
    modifies client, client.tx, client.tx.data, client.wire, client.protocol, client.protocol.tx,
             client.protocol.tx.data
    ensures HasLoaded(version, client, Loaded(version, calls))
    ensures ids == Numbers(|Loaded(version, calls)|)
    ensures calls != [] && calls[|calls| - 1] == SendCall ==> client.tx.Contents() == []
  {
    ids := [];
    ghost var ms := [];
    for i := 0 to |calls|
      invariant client.tx.data == old(client.tx.data) || fresh(client.tx.data)
      invariant client.protocol.tx.data == old(client.protocol.tx.data) || fresh(client.protocol.tx.data)
      invariant ms == Loaded(version, calls[..i])
      invariant HasLoaded(version, client, ms) && ids == Numbers(|ms|)
      invariant i > 0 && calls[i - 1] == SendCall ==> client.tx.Contents() == []
    {
      LoadedSnoc(version, calls, i);
      ids := RunCall(version, client, calls[i], ids, ms);
      ms := ms + LoadedBy(version, calls[i]);
    }
    assert calls[..|calls|] == calls;
  }

  function Numbers(n: nat): (s: seq<int>)
    ensures |s| == n && forall k :: 0 <= k < n ==> s[k] == k
  {
    seq(n, k => k)
  }

  method RunCall(version: Version, client: Connection, call: Call, ids: seq<int>, ghost ms: seq<Message>)
    returns (more: seq<int>)
    requires HasLoaded(version, client, ms) && client.wire.sends && ids == Numbers(|ms|)
    requires call.LoadCall? ==> Representable(AsValue(call.message))
    modifies client, client.tx, client.tx.data, client.wire, client.protocol, client.protocol.tx,
             client.protocol.tx.data
    ensures HasLoaded(version, client, ms + LoadedBy(version, call))
    ensures more == Numbers(|ms + LoadedBy(version, call)|)
    ensures client.tx.data == old(client.tx.data) || fresh(client.tx.data)
    ensures client.protocol.tx.data == old(client.protocol.tx.data) || fresh(client.protocol.tx.data)
    ensures call == SendCall ==> client.tx.Contents() == []
  {
    hide Transmission, Frame, Emit;
    more := ids;
    match call {
      case SendCall =>
        var _ := client.Send();
        assert ms + LoadedBy(version, call) == ms;
      case LoadCall(m) =>
        ghost var sent, waiting, frame := client.wire.outbound, client.tx.Contents(), Frame(Encoded(version, m).bytes);
        var status := client.LoadMessage(m.code, m.fields);
        if status == Success {
          TransmitOneMore(version, ms, m);
          Associative(sent, waiting, frame);
          more := ids + [client.protocol.nextRequestId - 1];
        } else {
          assert waiting + [] == waiting && ms + LoadedBy(version, call) == ms;
        }
    }
  }

  lemma LoadedSnoc(version: Version, calls: seq<Call>, i: nat)
    requires WellTyped(calls) && i < |calls|
    ensures WellTyped(calls[..i]) && WellTyped(calls[..i + 1])
    ensures Loaded(version, calls[..i + 1]) == Loaded(version, calls[..i]) + LoadedBy(version, calls[i])
  {
    assert calls[..i + 1][..i] == calls[..i];
  }

  lemma TransmitOneMore(version: Version, ms: seq<Message>, m: Message)
    requires AllEncode(version, ms) && Representable(AsValue(m)) && Encoded(version, m).status == Success
    ensures AllEncode(version, ms + [m])
    ensures Transmission(version, ms + [m]) == Transmission(version, ms) + Frame(Encoded(version, m).bytes)
  {
    TransmissionConcat(version, ms, [m]);
    FlatOfOne(FrameOf(version, m));
    assert Frames(version, [m]) == [FrameOf(version, m)];
  }

  /** A peer that has had n summaries, over a transport that does not fail to receive. */
  ghost predicate CanRead(version: Version, peer: Connection, n: nat)
    reads peer, peer.tx, peer.rx, peer.mem, peer.protocol, peer.protocol.tx, peer.protocol.rx
  {
    peer.Valid() && peer.protocol.version == version && peer.wire.receives && peer.protocol.responses == n
  }

  /** The messages a peer has still to get. */
  ghost function ToCome(version: Version, peer: Connection): seq<Message>
    reads peer, peer.tx, peer.rx, peer.rx.data, peer.wire, peer.mem, peer.protocol, peer.protocol.tx,
          peer.protocol.rx, peer.protocol.rx.data
  {
    if peer.Valid() then Delivered(version, peer.protocol.Abstract(), peer.Incoming()) else []
  }

  /** A peer that fetches request after request until nothing comes any more. */
  method RunPeer(version: Version, peer: Connection) returns (received: seq<Message>)
    requires CanRead(version, peer, 0)
    modifies peer, peer.rx, peer.rx.data, peer.wire, peer.protocol, peer.protocol.rx, peer.protocol.rx.data, peer.mem
    ensures received == old(ToCome(version, peer))
  {
    ghost var all := ToCome(version, peer);
    hide ToCome, CanRead;
    received := [];
    ghost var left := all;
    assert received + left == all;
    while true
      invariant peer.rx.data == old(peer.rx.data) || fresh(peer.rx.data)
      invariant peer.protocol.rx.data == old(peer.protocol.rx.data) || fresh(peer.protocol.rx.data)
      invariant CanRead(version, peer, |received|)
      invariant left == ToCome(version, peer) && received + left == all
      decreases |left|
    {
      var m := PeerFetch(version, peer, |received|);
      if m.None? {
        return;
      }
      received, left := received + [m.value], left[1..];
    }
  }

  /** Fetching the request the counter stands at counts it, if its summary comes. */
  lemma FetchCounts(version: Version, s: Session, stream: Octets)
    ensures var f := Fetch(version, s, stream, s.responses);
            f.Fetched? && f.code == FETCH_SUMMARY ==> f.session.responses == s.responses + 1
  {
    if Dechunk(stream).Whole? && Consume(version, s, Dechunk(stream).message).Reacted? {
      CountsSummary(version, s, Dechunk(stream).message);
    }
  }

  lemma DeliveredStep(version: Version, s: Session, stream: Octets)
    ensures Delivered(version, s, stream) ==
            match Fetch(version, s, stream, s.responses)
            case Fetched(code, t, rest) =>
              if code == FETCH_SUMMARY then [Message(t.dataType, Fields(t))] + Delivered(version, t, rest) else []
            case _ => []
  {
  }

  /** One fetch of the peer: the next message, or nothing when there is none. */
  method PeerFetch(version: Version, peer: Connection, request: nat) returns (m: Option<Message>)
    requires CanRead(version, peer, request)
    modifies peer, peer.rx, peer.rx.data, peer.wire, peer.protocol, peer.protocol.rx, peer.protocol.rx.data, peer.mem
    ensures peer.rx.data == old(peer.rx.data) || fresh(peer.rx.data)
    ensures peer.protocol.rx.data == old(peer.protocol.rx.data) || fresh(peer.protocol.rx.data)
    ensures if m.None? then old(ToCome(version, peer)) == []
            else CanRead(version, peer, request + 1) &&
                 old(ToCome(version, peer)) == [m.value] + ToCome(version, peer)
  {
    ghost var session, stream := peer.protocol.Abstract(), peer.Incoming();
    DeliveredStep(version, session, stream);
    FetchCounts(version, session, stream);
    hide Fetch, Delivered;
    var o := peer.FetchReply(request);
    if o != Answered(FETCH_SUMMARY) {
      return None;
    }
    ghost var now := peer.protocol.Abstract();
    assert now.data == View(peer.protocol.data);
    var fields := if View(peer.protocol.data).List? then View(peer.protocol.data).items else [];
    return Some(Message(peer.protocol.dataType, fields));
  }

  /** A client of its own runs the calls, the last of which is a send. */
  method SendAcross(version: Version, calls: seq<Call>, mem: BoltMem) returns (ids: seq<int>, bytes: Octets)
    requires mem.Valid() && WellTyped(calls) && calls != [] && calls[|calls| - 1] == SendCall
    ensures bytes == Transmission(version, Loaded(version, calls))
    ensures ids == Numbers(|Loaded(version, calls)|)
  {
    var wire := new Transport(true, true, []);
    var client := new Connection(wire, mem, version);
    assert wire.outbound + client.tx.Contents() == Transmission(version, []);
    ids := RunClient(version, client, calls);
    assert wire.outbound + client.tx.Contents() == wire.outbound;
    bytes := wire.outbound;
  }

  /** A peer of its own reads these bytes. */
  method ReadAcross(version: Version, bytes: Octets, mem: BoltMem) returns (received: seq<Message>)
    requires mem.Valid()
    modifies mem
    ensures received == Delivered(version, NewSession, bytes)
  {
    hide Delivered;
    var wire := new Transport(true, true, bytes);
    var peer := new Connection(wire, mem, version);
    assert peer.Incoming() == bytes;
    received := RunPeer(version, peer);
  }

  /** The whole way: whatever mixture of loads and sends the client runs, as long as it ends
      with a send, and however both transports cut the bytes, the peer reads exactly the
      messages that loaded, in order, if and only if all of these are deliverable; and message
      k is the one with request id k. */
  method Exchange(version: Version, calls: seq<Call>, mem: BoltMem)
    returns (ids: seq<int>, received: seq<Message>)
    requires mem.Valid() && WellTyped(calls) && calls != [] && calls[|calls| - 1] == SendCall
    modifies mem
    ensures received == Loaded(version, calls) <==> AllDeliverable(version, Loaded(version, calls))
    ensures ids == Numbers(|Loaded(version, calls)|)
  {
    var bytes;
    ids, bytes := SendAcross(version, calls, mem);
    received := ReadAcross(version, bytes, mem);
    DeliveredExactlyWhen(version, NewSession, Loaded(version, calls));
  }
}
