/** The failure a connection remembers, over every run of received messages and resets. */
module FailureHistory {
  import opened Bytes
  import opened Values
  import opened Signatures
  import opened Framing
  import opened Storage
  import opened Sessions

  /** A reset that fails to load leaves the failure in place. */
  datatype Event = Reset(loaded: bool) | Received(message: Octets)

  function Step(version: Version, s: Session, e: Event): Option<Session>
  {
    match e
    case Reset(loaded) => Some(if loaded then s.(failure := None) else s)
    case Received(message) =>
      match Consume(version, s, message)
      case Undetermined => None
      case Reacted(_, t) => Some(t)
  }

  /** The session after a run, as long as every message left it determined. */
  function Run(version: Version, s: Session, events: seq<Event>): Option<Session>
    decreases |events|
  {
    if events == [] then Some(s)
    else
      match Run(version, s, events[..|events| - 1])
      case None => None
      case Some(t) => Step(version, t, events[|events| - 1])
  }

  /** Entry j of the metadata gives a failure code or message that is a string. */
  predicate NamesFailure(pairs: seq<Value>, j: nat)
  {
    2 * j + 1 < |pairs| && pairs[2 * j] in {String(CODE_KEY), String(MESSAGE_KEY)} && pairs[2 * j + 1].String?
  }

  /** Taking in the message completes a FAILURE with a string code or message. An empty
      message completes the one before it once more, also after a reset. */
  ghost predicate ReportsFailure(version: Version, s: Session, message: Octets)
  {
    match Consume(version, s, message)
    case Undetermined => false
    case Reacted(code, t) =>
      code == OK && t.dataType == FAILURE && Fields(t) != [] && Fields(t)[0].Dictionary? &&
      exists j: nat :: NamesFailure(Fields(t)[0].pairs, j)
  }

  /** Event i of the run reported a failure and no later event was a loaded reset. */
  ghost predicate OutstandingFrom(version: Version, s: Session, events: seq<Event>, i: nat)
    requires i < |events|
  {
    var before := Run(version, s, events[..i]);
    before.Some? && events[i].Received? && ReportsFailure(version, before.value, events[i].message) &&
    forall j :: i < j < |events| ==> events[j] != Reset(true)
  }

  ghost predicate Outstanding(version: Version, s: Session, events: seq<Event>)
  {
    exists i :: 0 <= i < |events| && OutstandingFrom(version, s, events, i)
  }

  // ---------------------------------------------------------------- one message

  lemma {:induction false} ExtractRemembers(version: Version, s: Session, pairs: seq<Value>, i: nat)
    requires 2 * i <= |pairs|
    ensures var t := ExtractFrom(version, s, pairs, i);
            t.data == s.data && t.dataType == s.dataType &&
            (t.failure.Some? <==>
             s.failure.Some? || (s.dataType == FAILURE && exists j: nat :: i <= j && NamesFailure(pairs, j)))
    decreases |pairs| - 2 * i
  {
    if 2 * i + 1 < |pairs| {
      var t := ExtractEntry(version, s, pairs[2 * i], pairs[2 * i + 1]);
      EntryRemembers(version, s, pairs, i);
      ExtractRemembers(version, t, pairs, i + 1);
      assert forall j: nat :: i <= j && NamesFailure(pairs, j) ==> j == i || i + 1 <= j;
    }
  }

  lemma EntryRemembers(version: Version, s: Session, pairs: seq<Value>, i: nat)
    requires 2 * i + 1 < |pairs|
    ensures var t := ExtractEntry(version, s, pairs[2 * i], pairs[2 * i + 1]);
            t.data == s.data && t.dataType == s.dataType &&
            (t.failure.Some? <==> s.failure.Some? || (s.dataType == FAILURE && NamesFailure(pairs, i)))
  {
    assert |CODE_KEY| == 4 && |MESSAGE_KEY| == 7 && |BOOKMARK_KEY| == 8 && |SERVER_KEY| == 6;
    assert |FIELDS_KEY| == 6 && |CONNECTION_ID_KEY| == 13;
  }

  lemma ConsumeRemembers(version: Version, s: Session, message: Octets)
    ensures match Consume(version, s, message)
      case Undetermined => true
      case Reacted(_, t) => t.failure.Some? <==> s.failure.Some? || ReportsFailure(version, s, message)
  {
    match UnloadMessage(Readable(version), s.(pending := s.pending + message))
    case Undetermined =>
    case Reacted(code, t) =>
      assert t.failure == s.failure;
      if code == OK && t.dataType != RECORD && Fields(t) != [] && Fields(t)[0].Dictionary? {
        var counted := t.(responses := t.responses + 1, metadata := []);
        ExtractRemembers(version, counted, Fields(t)[0].pairs, 0);
      }
  }

  // ---------------------------------------------------------------- every run

  lemma OutstandingStep(version: Version, s: Session, events: seq<Event>, e: Event)
    requires Run(version, s, events).Some?
    ensures var t := Run(version, s, events).value;
            Outstanding(version, s, events + [e]) <==>
            (Outstanding(version, s, events) && e != Reset(true)) ||
            (e.Received? && ReportsFailure(version, t, e.message))
  {
    var all := events + [e];
    assert all[..|events|] == events;
    forall i | 0 <= i < |events|
      ensures OutstandingFrom(version, s, all, i) <==> OutstandingFrom(version, s, events, i) && e != Reset(true)
    {
      assert all[..i] == events[..i];
      assert all[|events|] == e;
    }
    assert OutstandingFrom(version, s, all, |events|) <==>
           e.Received? && ReportsFailure(version, Run(version, s, events).value, e.message);
  }

  /** In every run, a failure is remembered exactly while one is outstanding: reported by a
      message taken in since the last reset that loaded. */
  lemma {:induction false} RemembersOutstandingFailure(version: Version, events: seq<Event>)
    requires Run(version, NewSession, events).Some?
    ensures Run(version, NewSession, events).value.failure.Some? <==> Outstanding(version, NewSession, events)
    decreases |events|
  {
    if events != [] {
      var earlier, e := events[..|events| - 1], events[|events| - 1];
      assert events == earlier + [e];
      RemembersOutstandingFailure(version, earlier);
      OutstandingStep(version, NewSession, earlier, e);
      if e.Received? {
        ConsumeRemembers(version, Run(version, NewSession, earlier).value, e.message);
      }
    }
  }

  function Receipts(messages: seq<Octets>): (es: seq<Event>)
    ensures |es| == |messages|
  {
    seq(|messages|, i requires 0 <= i < |messages| => Received(messages[i]))
  }

  lemma {:induction false} RunConcat(version: Version, s: Session, a: seq<Event>, b: seq<Event>)
    requires Run(version, s, a).Some?
    ensures Run(version, s, a + b) == Run(version, Run(version, s, a).value, b)
    decreases |b|
  {
    if b == [] {
      assert a + b == a;
    } else {
      var init := b[..|b| - 1];
      RunConcat(version, s, a, init);
      assert (a + b)[..|a + b| - 1] == a + init;
    }
  }

  /** The messages at the front of a stream, dechunked. */
  function FirstMessages(stream: Octets, n: nat): seq<Octets>
    decreases n
  {
    if n == 0 then []
    else
      match Dechunk(stream)
      case Partial => []
      case Whole(message, rest) => [message] + FirstMessages(rest, n - 1)
  }

  lemma FirstReceipt(stream: Octets, n: nat)
    requires Dechunk(stream).Whole?
    ensures var rest := FirstMessages(Dechunk(stream).rest, n);
            |FirstMessages(stream, n + 1)| == 1 + |rest| &&
            Receipts(FirstMessages(stream, n + 1)) == [Received(Dechunk(stream).message)] + Receipts(rest)
  {
  }

  /** A fetch takes in some number of messages from the front of the stream, one by one. */
  lemma {:induction false} FetchIsRun(version: Version, s: Session, stream: Octets, request: nat) returns (n: nat)
    requires Fetch(version, s, stream, request).Fetched?
    ensures n > 0 && |FirstMessages(stream, n)| == n
    ensures Run(version, s, Receipts(FirstMessages(stream, n))) == Some(Fetch(version, s, stream, request).session)
    decreases |stream|
  {
    var message, rest := Dechunk(stream).message, Dechunk(stream).rest;
    var reaction := Consume(version, s, message);
    var t := reaction.session;
    var first := [Received(message)];
    assert first[..0] == [] && Run(version, s, []) == Some(s);
    assert Run(version, s, first) == Some(t);
    if reaction.code != OK || s.responses == request {
      n := 1;
      FirstReceipt(stream, 0);
      assert first + [] == first;
    } else {
      var more := FetchIsRun(version, t, rest, request);
      n := more + 1;
      var others := Receipts(FirstMessages(rest, more));
      FirstReceipt(stream, more);
      RunConcat(version, s, first, others);
    }
  }

  /** When a fetch, after any run, ends at an IGNORED summary, the connection is put in
      state Failed exactly when some failure is outstanding then, even one that this fetch
      or an earlier one passed over; otherwise its state stays as it was. */
  lemma IgnoredRevealsFailure(version: Version, events: seq<Event>, state: ConnectionState, stream: Octets,
                              request: nat) returns (n: nat)
    requires Run(version, NewSession, events).Some?
    requires var f := ConnectionFetch(version, state, Run(version, NewSession, events).value, stream, request);
             f.ConnectionFetched? && f.code == FETCH_SUMMARY && f.session.dataType == IGNORED
    ensures var s := Run(version, NewSession, events).value;
            var f := ConnectionFetch(version, state, s, stream, request);
            var taken := Receipts(FirstMessages(stream, n));
            |taken| == n && Run(version, s, taken) == Some(f.session) &&
            f.state == if Outstanding(version, NewSession, events + taken) then Failed else state
  {
    var s := Run(version, NewSession, events).value;
    n := FetchIsRun(version, s, stream, request);
    var taken := Receipts(FirstMessages(stream, n));
    RunConcat(version, NewSession, events, taken);
    RemembersOutstandingFailure(version, events + taken);
  }
}
