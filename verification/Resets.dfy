/** The reset a pool does to a connection before it is used again. */
module Resets {
  import opened Bytes
  import opened Signatures
  import opened Storage
  import opened Framing
  import opened Sessions
  import opened Replies
  import opened Counting
  import opened Connections
  import opened DirectPools

  /** What fetching the summary of a reset makes of the bytes coming in. */
  function ResetFetched(version: Version, state: ConnectionState, s: Session, stream: Octets, request: nat)
    : ConnectionFetched
  {
    FetchSummary(version, state, s.(failure := None), stream, request, 0)
  }

  predicate ResetAnswered(f: ConnectionFetched)
  {
    f.ConnectionFetched? && f.code >= 0 && f.session.dataType == SUCCESS
  }

  /** Loads a reset, sends it, and fetches its summary. How the send ended is not looked at,
      because its error code is positive. */
  method ResetConnection(connection: Connection) returns (outcome: ResetOutcome, sent: bool)
    requires connection.Valid() && connection.protocol.tx.Contents() == []
    modifies connection, connection.tx, connection.tx.data, connection.rx, connection.rx.data, connection.wire
    modifies connection.protocol, connection.protocol.tx, connection.protocol.tx.data, connection.protocol.rx,
             connection.protocol.rx.data, connection.mem
    ensures connection.Valid()
    ensures connection.state == if outcome == ResetSucceeded then Ready else outcome.left
    ensures sent ==> connection.wire.outbound ==
                     old(connection.wire.outbound) + (old(connection.tx.Contents()) + Frame([0xB0, 0x0F]))
    ensures connection.wire.sends ==> sent
    ensures outcome == ResetSucceeded ==> connection.protocol.dataType == 0x70
    ensures var f := ResetFetched(connection.protocol.version, if sent then old(connection.state) else Defunct,
                                  old(connection.protocol.Abstract()), old(connection.Incoming()),
                                  old(connection.protocol.nextRequestId));
            (outcome == ResetSucceeded ==> ResetAnswered(f)) &&
            (connection.wire.receives ==> (outcome == ResetSucceeded <==> ResetAnswered(f)))
  {
    hide FetchSummary;
    var status := connection.LoadReset();
    var request := connection.protocol.nextRequestId - 1;
    sent := connection.Send();
    ghost var state, session, stream := connection.state, connection.protocol.Abstract(), connection.Incoming();
    assert session == old(connection.protocol.Abstract()).(failure := None);
    var o := connection.FetchWholeSummary(request);
    if o.Answered? && o.code >= 0 && connection.protocol.dataType == SUCCESS {
      SuccessfulResetIsReady(connection.protocol.version, state, session, stream, request, 0);
      outcome := ResetSucceeded;
    } else {
      outcome := ResetFailed(connection.state);
    }
  }

  /** Whether a reset succeeds does not depend on the state the send has left, that is, on
      whether the reset was sent: only the bytes coming in decide. */
  lemma {:induction false} SendIsNotLookedAt(version: Version, a: ConnectionState, b: ConnectionState, s: Session,
                                             stream: Octets, request: nat, records: int)
    ensures var f, g := FetchSummary(version, a, s, stream, request, records),
                        FetchSummary(version, b, s, stream, request, records);
            (ResetAnswered(f) <==> ResetAnswered(g)) && (ResetAnswered(f) ==> f == g && f.state == Ready)
    decreases |stream|
  {
    hide Fetch, FetchSummary;
    FetchSummaryCases(version, a, s, stream, request, records);
    FetchSummaryCases(version, b, s, stream, request, records);
    match Fetch(version, s, stream, request)
    case Fetched(code, t, rest) =>
      if code > 0 {
        SendIsNotLookedAt(version, a, b, t, rest, request, records + code);
      }
    case _ =>
  }

  /** A reset that could not be sent succeeds all the same when the next bytes happen to be a
      success that counts as its answer. */
  lemma FailedSendGoesUnnoticed(version: Version)
    ensures var f := ResetFetched(version, Defunct, NewSession, Frame([0xB0, SUCCESS]), 0);
            ResetAnswered(f) && f.state == Ready
  {
    var message: Octets := [0xB0, SUCCESS];
    FrameRoundTrip(message, []);
    assert Frame(message) + [] == Frame(message);
    assert NewSession.(failure := None) == NewSession;
    BareSuccess(version, NewSession);
    SummaryStep(version, Defunct, NewSession, Frame(message), 0, 0);
  }
}
