/** The pool of connections to one server. */
module DirectPools {
  import opened Bytes
  import opened Signatures
  import opened Sessions
  import opened AddressSets

  /** A pooled connection; agent says whether a caller holds it. */
  datatype Entry = Entry(state: ConnectionState, agent: bool)

  datatype OpenOutcome = SocketOpened | SocketFailed | HandshakeFailed | VersionRefused

  /** How a reset ends: with a success, or not, and the state the connection is in then. */
  datatype ResetOutcome = ResetSucceeded | ResetFailed(left: ConnectionState)

  /** What the clock, the resolver, the network and the server do to one attempt. */
  datatype Attempt = Attempt(expired: bool, resolves: bool, open: OpenOutcome, initCode: int, reset: ResetOutcome)

  datatype PoolError = NoError | NotResolved | MoreInfo

  datatype AcquireResult = Took(index: nat) | PoolFull | NotReady(index: nat, error: PoolError)

  // ---------------------------------------------------------------- one connection

  /** The state after initialising, by the code the protocol's init call returned. */
  function Initialised(initCode: int): (ConnectionState, PoolError)
  {
    if initCode == SUCCESS then (Ready, NoError) else (Defunct, MoreInfo)
  }

  function OpenedAndInitialised(state: ConnectionState, env: Attempt): (ConnectionState, PoolError)
  {
    if !env.resolves then (state, NotResolved)
    else if env.open != SocketOpened then (Defunct, MoreInfo)
    else Initialised(env.initCode)
  }

  /** What acquire does to the connection it has picked. */
  function Prepared(state: ConnectionState, env: Attempt): (ConnectionState, PoolError)
  {
    match state
    case Disconnected => OpenedAndInitialised(state, env)
    case Defunct => OpenedAndInitialised(state, env)
    case Connected => Initialised(env.initCode)
    case Failed => if env.reset == ResetSucceeded then (Ready, NoError) else OpenedAndInitialised(env.reset.left, env)
    case Ready => (Ready, NoError)
  }

  /** A connection past its lifetime is closed before it is looked at. */
  function Aged(state: ConnectionState, env: Attempt): ConnectionState
  {
    if env.expired && state != Defunct then Disconnected else state
  }

  // ---------------------------------------------------------------- the pool as a value

  datatype PoolModel = PoolModel(entries: seq<Entry>, inUse: int)

  function NewPool(n: nat): PoolModel
  {
    PoolModel(seq(n, _ => Entry(Disconnected, false)), 0)
  }

  /** The first entry without an agent, or -1. */
  function FirstIdle(entries: seq<Entry>): (i: int)
    ensures -1 <= i < |entries|
    ensures i >= 0 ==> !entries[i].agent && forall k :: 0 <= k < i ==> entries[k].agent
    ensures i == -1 ==> forall k :: 0 <= k < |entries| ==> entries[k].agent
  {
    if entries == [] then -1
    else if !entries[0].agent then 0
    else
      var i := FirstIdle(entries[1..]);
      if i < 0 then -1 else i + 1
  }

  function Acquired(m: PoolModel, env: Attempt): (PoolModel, AcquireResult)
  {
    var i := FirstIdle(m.entries);
    if m.inUse >= |m.entries| || i < 0 then (m, PoolFull)
    else
      var (state, error) := Prepared(Aged(m.entries[i].state, env), env);
      if error == NoError then (PoolModel(m.entries[i := Entry(state, true)], m.inUse + 1), Took(i))
      else (m.(entries := m.entries[i := Entry(state, false)]), NotReady(i, error))
  }

  /** Releasing a connection of the pool resets it, or closes it when that fails; releasing
      any other connection only lowers the count. */
  function Released(m: PoolModel, index: int, reset: ResetOutcome): PoolModel
  {
    var state := if reset == ResetSucceeded then Ready else Disconnected;
    PoolModel(if 0 <= index < |m.entries| then m.entries[index := Entry(state, false)] else m.entries, m.inUse - 1)
  }

  // ---------------------------------------------------------------- what always holds

  function Agents(entries: seq<Entry>): (n: nat)
    ensures n <= |entries|
    ensures n == |entries| <==> forall i :: 0 <= i < |entries| ==> entries[i].agent
  {
    if entries == [] then 0
    else
      assert entries == [entries[0]] + entries[1..];
      Agents(entries[1..]) + if entries[0].agent then 1 else 0
  }

  lemma {:induction false} AgentsUpdate(entries: seq<Entry>, i: nat, e: Entry)
    requires i < |entries|
    ensures Agents(entries[i := e]) ==
            Agents(entries) - (if entries[i].agent then 1 else 0) + if e.agent then 1 else 0
  {
    if i > 0 {
      AgentsUpdate(entries[1..], i - 1, e);
      assert entries[i := e][1..] == entries[1..][i - 1 := e];
    } else {
      assert entries[i := e][1..] == entries[1..];
    }
  }

  /** An idle connection is ready to use or has to be opened; it is never half way. */
  predicate IdleClean(entries: seq<Entry>)
  {
    forall i :: 0 <= i < |entries| && !entries[i].agent ==> entries[i].state in {Ready, Disconnected, Defunct}
  }

  predicate Sound(m: PoolModel)
  {
    m.inUse <= Agents(m.entries) && IdleClean(m.entries)
  }

  lemma PreparedIsReadyOrClosed(state: ConnectionState, env: Attempt)
    requires state in {Ready, Disconnected, Defunct}
    ensures var (after, error) := Prepared(Aged(state, env), env);
            (error == NoError <==> after == Ready) && after in {Ready, Disconnected, Defunct}
  {
  }

  /** A pool handed out nothing that is not Ready, nothing already held, and is reported full
      exactly when every entry is held. */
  lemma AcquireHandsOutReady(m: PoolModel, env: Attempt)
    requires Sound(m)
    ensures var (after, result) := Acquired(m, env);
            Sound(after) &&
            (result == PoolFull <==> forall i :: 0 <= i < |m.entries| ==> m.entries[i].agent) &&
            match result
            case PoolFull => after == m
            case Took(i) =>
              i < |m.entries| && !m.entries[i].agent && after.inUse == m.inUse + 1 &&
              after.entries == m.entries[i := Entry(Ready, true)]
            case NotReady(i, error) =>
              i < |m.entries| && !m.entries[i].agent && after.inUse == m.inUse && error != NoError &&
              after.entries == m.entries[i := after.entries[i]] && !after.entries[i].agent
  {
    var i := FirstIdle(m.entries);
    if i >= 0 && m.inUse < |m.entries| {
      PreparedIsReadyOrClosed(m.entries[i].state, env);
      var (state, error) := Prepared(Aged(m.entries[i].state, env), env);
      AgentsUpdate(m.entries, i, Entry(state, error == NoError));
    }
  }

  /** An attempt opens and initialises a connection: the address resolves, the socket opens,
      and the server answers with a success, 0x70. */
  predicate Opens(env: Attempt)
  {
    env.resolves && env.open == SocketOpened && env.initCode == 0x70
  }

  /** An attempt on a pool with an idle entry succeeds exactly when the first idle connection
      is Ready and young enough, or can be opened. Otherwise it fails on the name if that does
      not resolve, leaving the connection unopened, and else leaves it Defunct. */
  lemma AttemptSucceedsExactlyWhen(m: PoolModel, env: Attempt, i: nat)
    requires Sound(m) && i < |m.entries| && !m.entries[i].agent && forall k :: 0 <= k < i ==> m.entries[k].agent
    ensures var (after, result) := Acquired(m, env);
            var was := m.entries[i].state;
            (result == Took(i) <==> (was == Ready && !env.expired) || Opens(env)) &&
            (result == NotReady(i, NotResolved) <==> !(was == Ready && !env.expired) && !env.resolves) &&
            (result == NotReady(i, MoreInfo) <==>
             !(was == Ready && !env.expired) && env.resolves && !Opens(env)) &&
            after.inUse == (if result.Took? then m.inUse + 1 else m.inUse) &&
            after.entries ==
            m.entries[i := if result.Took? then Entry(Ready, true)
                           else if env.resolves || was == Defunct then Entry(Defunct, false)
                           else Entry(Disconnected, false)]
  {
    assert FirstIdle(m.entries) == i;
    assert m.inUse < |m.entries|;
  }

  /** What becomes of a picked connection, state by state. */
  lemma PreparedByState(state: ConnectionState, env: Attempt)
    ensures var (after, error) := Prepared(state, env);
            var reset := state == Failed && env.reset == ResetSucceeded;
            (error == NoError <==>
             state == Ready || reset || (if state == Connected then env.initCode == 0x70 else Opens(env))) &&
            (error == NotResolved <==> state !in {Ready, Connected} && !reset && !env.resolves) &&
            after == if error == NoError then Ready
                     else if error == MoreInfo then Defunct
                     else if state == Failed then env.reset.left
                     else state
  {
  }

  lemma ReleaseKeepsSound(m: PoolModel, index: int, reset: ResetOutcome)
    requires Sound(m)
    ensures Sound(Released(m, index, reset))
  {
    if 0 <= index < |m.entries| {
      AgentsUpdate(m.entries, index, Entry(if reset == ResetSucceeded then Ready else Disconnected, false));
    }
  }

  // ---------------------------------------------------------------- every run

  /** Calls on the pool, and what a holder does to the connection it holds. */
  datatype Call = Acquire(env: Attempt) | Release(index: int, reset: ResetOutcome) | Use(index: int, state: ConnectionState)

  function Called(m: PoolModel, call: Call): PoolModel
  {
    match call
    case Acquire(env) => Acquired(m, env).0
    case Release(index, reset) => Released(m, index, reset)
    case Use(index, state) =>
      if 0 <= index < |m.entries| && m.entries[index].agent then m.(entries := m.entries[index := Entry(state, true)]) else m
  }

  function Run(m: PoolModel, calls: seq<Call>): PoolModel
    decreases |calls|
  {
    if calls == [] then m else Run(Called(m, calls[0]), calls[1..])
  }

  lemma CallKeepsSound(m: PoolModel, call: Call)
    requires Sound(m)
    ensures Sound(Called(m, call)) && |Called(m, call).entries| == |m.entries|
  {
    match call
    case Acquire(env) => AcquireHandsOutReady(m, env);
    case Release(index, reset) => ReleaseKeepsSound(m, index, reset);
    case Use(index, state) =>
      if 0 <= index < |m.entries| {
        AgentsUpdate(m.entries, index, Entry(state, true));
      }
  }

  /** Over all calls in any order, even releases of connections nobody holds: the count never
      exceeds the number of held entries, and no idle connection is Connected or Failed. */
  lemma {:induction false} RunsAreSound(m: PoolModel, calls: seq<Call>)
    requires Sound(m)
    ensures Sound(Run(m, calls)) && |Run(m, calls).entries| == |m.entries|
    decreases |calls|
  {
    if calls != [] {
      CallKeepsSound(m, calls[0]);
      RunsAreSound(Called(m, calls[0]), calls[1..]);
    }
  }

  /** Who holds what after a call. */
  function HeldAfter(m: PoolModel, held: set<nat>, call: Call): set<nat>
  {
    match call
    case Acquire(env) =>
      (match Acquired(m, env).1
       case Took(i) => held + {i}
       case _ => held)
    case Release(index, _) => if index >= 0 then held - {index as nat} else held
    case Use(_, _) => held
  }

  /** A run in which callers release only what they hold. */
  predicate Disciplined(m: PoolModel, held: set<nat>, calls: seq<Call>)
    decreases |calls|
  {
    calls == [] ||
    ((calls[0].Release? ==> 0 <= calls[0].index && calls[0].index as nat in held) &&
     Disciplined(Called(m, calls[0]), HeldAfter(m, held, calls[0]), calls[1..]))
  }

  function HeldAtEnd(m: PoolModel, held: set<nat>, calls: seq<Call>): set<nat>
    decreases |calls|
  {
    if calls == [] then held else HeldAtEnd(Called(m, calls[0]), HeldAfter(m, held, calls[0]), calls[1..])
  }

  /** The entries with an agent are those held, and the count is their number. */
  predicate Exact(m: PoolModel, held: set<nat>)
  {
    m.inUse == |held| && m.inUse == Agents(m.entries) && (forall i :: i in held ==> i < |m.entries|) &&
    forall i: nat :: i < |m.entries| ==> (m.entries[i].agent <==> i in held)
  }

  /** One call of a disciplined caller: nothing is handed out that someone holds. */
  lemma CallKeepsExact(m: PoolModel, held: set<nat>, call: Call)
    requires Sound(m) && Exact(m, held)
    requires call.Release? ==> 0 <= call.index && call.index as nat in held
    ensures Exact(Called(m, call), HeldAfter(m, held, call))
    ensures call.Acquire? && Acquired(m, call.env).1.Took? ==> Acquired(m, call.env).1.index !in held
  {
    match call
    case Acquire(env) =>
      AcquireHandsOutReady(m, env);
      var (after, result) := Acquired(m, env);
      if result.Took? {
        Occupied(m, held, result.index, after.entries[result.index]);
      } else if result.NotReady? {
        AgentsUpdate(m.entries, result.index, after.entries[result.index]);
      }
    case Release(index, reset) =>
      Vacated(m, held, index, Released(m, index, reset).entries[index]);
    case Use(index, state) =>
      if 0 <= index < |m.entries| {
        AgentsUpdate(m.entries, index, Entry(state, true));
      }
  }

  lemma Occupied(m: PoolModel, held: set<nat>, i: nat, e: Entry)
    requires Exact(m, held) && i < |m.entries| && !m.entries[i].agent && e.agent
    ensures i !in held && Exact(PoolModel(m.entries[i := e], m.inUse + 1), held + {i})
  {
    AgentsUpdate(m.entries, i, e);
  }

  lemma Vacated(m: PoolModel, held: set<nat>, i: nat, e: Entry)
    requires Exact(m, held) && i in held && !e.agent
    ensures Exact(PoolModel(m.entries[i := e], m.inUse - 1), held - {i})
  {
    AgentsUpdate(m.entries, i, e);
  }

  /** A release keeps the count right exactly when the connection released is held. */
  lemma ReleaseKeepsCountExactlyWhen(m: PoolModel, held: set<nat>, index: int, reset: ResetOutcome)
    requires Exact(m, held)
    ensures var after := Released(m, index, reset);
            after.inUse == Agents(after.entries) <==> index >= 0 && index as nat in held
  {
    if 0 <= index < |m.entries| {
      AgentsUpdate(m.entries, index, Released(m, index, reset).entries[index]);
    }
  }

  /** Over every disciplined run the count is exactly the number of connections held, and no
      connection has two holders. */
  lemma {:induction false} DisciplinedRunsAreExact(m: PoolModel, held: set<nat>, calls: seq<Call>)
    requires Sound(m) && Exact(m, held) && Disciplined(m, held, calls)
    ensures Exact(Run(m, calls), HeldAtEnd(m, held, calls))
    decreases |calls|
  {
    if calls != [] {
      CallKeepsSound(m, calls[0]);
      CallKeepsExact(m, held, calls[0]);
      DisciplinedRunsAreExact(Called(m, calls[0]), HeldAfter(m, held, calls[0]), calls[1..]);
    }
  }

  lemma NewPoolIsExact(n: nat)
    ensures Sound(NewPool(n)) && Exact(NewPool(n), {})
  {
    if n > 0 {
      NewPoolIsExact(n - 1);
      assert NewPool(n).entries[1..] == NewPool(n - 1).entries;
    }
  }

  /** Releasing a connection the pool does not have makes the count too low: after it the
      pool believes one connection fewer in use than callers hold. */
  lemma StrayReleaseBreaksTheCount(env: Attempt, reset: ResetOutcome)
    requires env.resolves && env.open == SocketOpened && env.initCode == SUCCESS && !env.expired
    ensures var m := Run(NewPool(2), [Acquire(env), Release(-1, reset)]);
            |m.entries| == 2 && m.entries[0].agent && m.inUse == 0
  {
    var m := NewPool(2);
    assert FirstIdle(m.entries) == 0;
    var first := PoolModel(m.entries[0 := Entry(Ready, true)], 1);
    assert Called(m, Call.Acquire(env)) == first;
    var calls := [Call.Acquire(env), Call.Release(-1, reset)];
    assert calls[1..] == [Call.Release(-1, reset)];
    assert Run(first, calls[1..]) == Run(Called(first, calls[1]), []);
  }

  /** A reset that fetches its summary and finds a success leaves the connection Ready. */
  lemma {:induction false} SuccessfulResetIsReady(version: Version, state: ConnectionState, s: Session, stream: Octets,
                                                  request: nat, records: nat)
    requires var f := FetchSummary(version, state, s, stream, request, records);
             f.ConnectionFetched? && f.code >= 0 && f.session.dataType == SUCCESS
    ensures FetchSummary(version, state, s, stream, request, records).state == Ready
    decreases |stream|
  {
    hide Fetch;
    match ConnectionFetch(version, state, s, stream, request)
    case ConnectionFetched(code, after, t, rest) =>
      if code > 0 {
        SuccessfulResetIsReady(version, after, t, rest, request, records + code);
      }
    case _ =>
  }

  // ---------------------------------------------------------------- the pool at work

  /** A connection of some pool, as callers hold it. */
  datatype Handle = Handle(pool: DirectPool, index: nat)

  class DirectPool {
    const address: Address
    const maxSize: nat
    var entries: seq<Entry>
    var inUse: int
    ghost var held: set<nat>

    function Model(): PoolModel
      reads this
    {
      PoolModel(entries, inUse)
    }

    ghost predicate Valid()
      reads this
    {
      |entries| == maxSize && Sound(Model()) && Exact(Model(), held)
    }

    constructor (address: Address, maxSize: nat)
      ensures Valid() && this.address == address && this.maxSize == maxSize
      ensures Model() == NewPool(maxSize) && held == {}
    {
      this.address := address;
      this.maxSize := maxSize;
      entries := seq(maxSize, _ => Entry(Disconnected, false));
      inUse := 0;
      held := {};
      new;
      NewPoolIsExact(maxSize);
      assert Model() == NewPool(maxSize);
    }

    /** The first unused entry, closed first when it has outlived its time. */
    method FindUnused(env: Attempt) returns (index: int)
      requires |entries| == maxSize
      modifies this`entries
      ensures index == if inUse >= maxSize then -1 else FirstIdle(old(entries))
      ensures entries == if index < 0 then old(entries)
                         else old(entries)[index := Entry(Aged(old(entries)[index].state, env), false)]
    {
      if inUse >= maxSize {
        return -1;
      }
      for i := 0 to maxSize
        invariant entries == old(entries) && forall k :: 0 <= k < i ==> entries[k].agent
      {
        if !entries[i].agent {
          if entries[i].state != Disconnected && entries[i].state != Defunct && env.expired {
            entries := entries[i := entries[i].(state := Disconnected)];
          }
          return i;
        }
      }
      return -1;
    }

    method OpenInit(index: nat, env: Attempt) returns (error: PoolError)
      requires index < |entries|
      modifies this`entries
      ensures var (state, e) := OpenedAndInitialised(old(entries)[index].state, env);
              error == e && entries == old(entries)[index := old(entries)[index].(state := state)]
    {
      if !env.resolves {
        return NotResolved;
      }
      if env.open != SocketOpened {
        entries := entries[index := entries[index].(state := Defunct)];
        return MoreInfo;
      }
      entries := entries[index := entries[index].(state := Connected)];
      error := Init(index, env.initCode);
    }

    method Init(index: nat, initCode: int) returns (error: PoolError)
      requires index < |entries|
      modifies this`entries
      ensures var (state, e) := Initialised(initCode);
              error == e && entries == old(entries)[index := old(entries)[index].(state := state)]
    {
      if initCode == SUCCESS {
        entries := entries[index := entries[index].(state := Ready)];
        return NoError;
      }
      entries := entries[index := entries[index].(state := Defunct)];
      return MoreInfo;
    }

    method Reset(index: nat, outcome: ResetOutcome) returns (ok: bool)
      requires index < |entries|
      modifies this`entries
      ensures ok == (outcome == ResetSucceeded)
      ensures var state := if ok then Ready else outcome.left;
              entries == old(entries)[index := old(entries)[index].(state := state)]
    {
      ok := outcome == ResetSucceeded;
      entries := entries[index := entries[index].(state := if ok then Ready else outcome.left)];
    }

    /** One attempt to get a connection; a caller that waits for a full pool tries again. */
    method Acquire(env: Attempt) returns (result: AcquireResult)
      requires Valid()
      modifies this
      ensures Valid() && (Model(), result) == Acquired(old(Model()), env)
      ensures held == if result.Took? then old(held) + {result.index} else old(held)
      ensures result.Took? ==> result.index !in old(held) && entries[result.index] == Entry(Ready, true)
      ensures result == PoolFull <==> forall i :: 0 <= i < maxSize ==> old(entries[i].agent)
      ensures var i := FirstIdle(old(entries));
              i >= 0 ==> (result == Took(i) <==> (old(entries)[i].state == Ready && !env.expired) || Opens(env)) &&
                         (result.Took? || result == NotReady(i, if env.resolves then MoreInfo else NotResolved))
    {
      ghost var call := Call.Acquire(env);
      CallKeepsSound(Model(), call);
      CallKeepsExact(Model(), held, call);
      AcquireHandsOutReady(Model(), env);
      if FirstIdle(entries) >= 0 {
        AttemptSucceedsExactlyWhen(Model(), env, FirstIdle(entries));
      }
      result := HandOut(env);
      held := HeldAfter(old(Model()), held, call);
    }

    /** Acquire as holders of other connections see it. */
    method Lend(env: Attempt) returns (result: AcquireResult)
      requires Valid()
      modifies this
      ensures Valid() && |entries| == |old(entries)|
      ensures held == if result.Took? then old(held) + {result.index} else old(held)
      ensures result.Took? ==>
                result.index < |entries| && result.index !in old(held) && entries[result.index] == Entry(Ready, true)
      ensures forall i :: i in old(held) ==> i < |entries| && entries[i] == old(entries[i])
    {
      AcquireHandsOutReady(Model(), env);
      result := Acquire(env);
    }

    method HandOut(env: Attempt) returns (result: AcquireResult)
      requires |entries| == maxSize
      modifies this`entries, this`inUse
      ensures (Model(), result) == Acquired(old(Model()), env)
    {
      var index := FindUnused(env);
      if index < 0 {
        return PoolFull;
      }
      var error := Prepare(index, env);
      if error == NoError {
        entries := entries[index := entries[index].(agent := true)];
        inUse := inUse + 1;
        assert entries == old(entries)[index := entries[index]];
        return Took(index);
      }
      assert entries == old(entries)[index := entries[index]];
      return NotReady(index, error);
    }

    method Prepare(index: nat, env: Attempt) returns (error: PoolError)
      requires index < |entries|
      modifies this`entries
      ensures var (state, e) := Prepared(old(entries)[index].state, env);
              error == e && entries == old(entries)[index := old(entries)[index].(state := state)]
      ensures error == NoError <==>
              match old(entries)[index].state
              case Ready => true
              case Connected => env.initCode == 0x70
              case Failed => env.reset == ResetSucceeded || Opens(env)
              case _ => Opens(env)
      ensures error == NoError ==> entries[index].state == Ready
    {
      PreparedByState(entries[index].state, env);
      match entries[index].state {
        case Disconnected => error := OpenInit(index, env);
        case Defunct => error := OpenInit(index, env);
        case Connected => error := Init(index, env.initCode);
        case Failed =>
          var ok := Reset(index, env.reset);
          error := NoError;
          if !ok {
            error := OpenInit(index, env);
          }
        case Ready => error := NoError;
      }
    }

    /** The position of a connection in this pool, or -1. */
    method Find(connection: Handle) returns (index: int)
      ensures index == if connection.pool == this && connection.index < maxSize then connection.index else -1
    {
      for i := 0 to maxSize
        invariant connection.pool == this ==> connection.index >= i
      {
        if Handle(this, i) == connection {
          return i;
        }
      }
      return -1;
    }

    /** Takes back a connection. The contract covers callers that release what they hold;
        what any other release does is said by Released. */
    method Release(connection: Handle, reset: ResetOutcome) returns (index: int)
      requires Valid() && connection.pool == this && connection.index in held
      modifies this
      ensures Valid() && index == connection.index && inUse == old(inUse) - 1
      ensures entries == old(entries)[index := Entry(if reset == ResetSucceeded then Ready else Disconnected, false)]
      ensures held == old(held) - {connection.index}
    {
      ghost var call := Call.Release(connection.index, reset);
      CallKeepsSound(Model(), call);
      CallKeepsExact(Model(), held, call);
      index := TakeBack(connection, reset);
      held := held - {connection.index};
    }

    method TakeBack(connection: Handle, reset: ResetOutcome) returns (index: int)
      requires |entries| == maxSize
      modifies this`entries, this`inUse
      ensures index == if connection.pool == this && connection.index < maxSize then connection.index else -1
      ensures Model() == Released(old(Model()), index, reset) && inUse == old(inUse) - 1
      ensures entries == if index < 0 then old(entries)
                         else old(entries)[index := Entry(if reset == ResetSucceeded then Ready else Disconnected, false)]
    {
      index := Find(connection);
      if index >= 0 {
        entries := entries[index := entries[index].(agent := false)];
        var ok := Reset(index, reset);
        if !ok {
          entries := entries[index := entries[index].(state := Disconnected)];
        }
      }
      inUse := inUse - 1;
    }

    /** Whatever a holder does with a connection leaves the pool's bookkeeping alone. Holders
        have no way to close one. */
    method UseConnection(connection: Handle, state: ConnectionState)
      requires Valid() && connection.pool == this && connection.index in held && state != Disconnected
      modifies this`entries
      ensures Valid() && entries == old(entries)[connection.index := Entry(state, true)]
    {
      CallKeepsSound(Model(), Call.Use(connection.index, state));
      CallKeepsExact(Model(), held, Call.Use(connection.index, state));
      entries := entries[connection.index := entries[connection.index].(state := state)];
    }

    /** Closes every connection of a pool nobody uses any more. */
    method Destroy()
      requires Valid() && held == {}
      modifies this`entries
      ensures forall i :: 0 <= i < |entries| ==> entries[i].state == Disconnected
    {
      for i := 0 to maxSize
        invariant |entries| == maxSize && forall k :: 0 <= k < i ==> entries[k].state == Disconnected
      {
        if entries[i].state != Disconnected {
          entries := entries[i := entries[i].(state := Disconnected)];
        }
      }
    }
  }
}
