/** One pool of connections for each server of a routing table. */
module RoutingPools {
  import opened Values
  import opened Storage
  import opened AddressSets
  import opened RoutingTables
  import opened DirectPools
  import opened Sessions

  const INT_MAX := 0x7FFF_FFFF

  // ---------------------------------------------------------------- what cleaning up leaves

  /** The elements whose marks are set, in order. */
  function Kept<T>(s: seq<T>, marks: seq<bool>): (r: seq<T>)
    requires |s| == |marks|
    ensures |r| <= |s| && (|r| == |s| ==> r == s) && forall x :: x in r ==> x in s
  {
    if s == [] then []
    else
      var init := Kept(s[..|s| - 1], marks[..|s| - 1]);
      if marks[|s| - 1] then init + [s[|s| - 1]] else init
  }

  predicate AllSet(marks: seq<bool>)
  {
    forall k :: 0 <= k < |marks| ==> marks[k]
  }

  lemma {:induction false} AllKept<T>(s: seq<T>, marks: seq<bool>)
    requires |s| == |marks| && AllSet(marks)
    ensures Kept(s, marks) == s
  {
    if s != [] {
      AllKept(s[..|s| - 1], marks[..|s| - 1]);
    }
  }

  lemma KeptLast<T>(s: seq<T>, marks: seq<bool>)
    requires |s| == |marks| && s != []
    ensures var n := |s| - 1; Kept(s, marks) == Kept(s[..n], marks[..n]) + if marks[n] then [s[n]] else []
  {
  }

  lemma KeptAppended<T>(s: seq<T>, marks: seq<bool>, mark: bool)
    requires |marks| < |s|
    ensures var i := |marks|;
            Kept(s[..i + 1], marks + [mark]) == Kept(s[..i], marks) + if mark then [s[i]] else []
  {
    hide Kept;
    var i := |marks|;
    var front, all := s[..i + 1], marks + [mark];
    KeptLast(front, all);
    assert front[..i] == s[..i] && all[..i] == marks;
  }

  lemma KeptNext<T>(s: seq<T>, marks: seq<bool>, i: nat)
    requires i < |s| == |marks|
    ensures Kept(s[..i + 1], marks[..i + 1]) == Kept(s[..i], marks[..i]) + if marks[i] then [s[i]] else []
  {
    assert marks[..i + 1] == marks[..i] + [marks[i]];
    KeptAppended(s, marks[..i], marks[i]);
  }

  lemma NotYetKept(s: seq<Address>, marks: seq<bool>, i: nat)
    requires i < |s| == |marks| && Distinct(s)
    ensures s[i] !in Kept(s[..i], marks[..i])
  {
    KeptExactlyWhen(s[..i], marks[..i], s[i]);
  }

  lemma {:induction false} KeptExactlyWhen<T>(s: seq<T>, marks: seq<bool>, x: T)
    requires |s| == |marks|
    ensures x in Kept(s, marks) <==> exists i :: 0 <= i < |s| && s[i] == x && marks[i]
  {
    if s != [] {
      var n := |s| - 1;
      KeptExactlyWhen(s[..n], marks[..n], x);
      assert forall i :: 0 <= i < n ==> s[..n][i] == s[i] && marks[..n][i] == marks[i];
      assert s[n] == x && marks[n] ==> x in Kept(s, marks);
    }
  }

  /** Somewhere in the two lists these two stand side by side, at a place that is marked. */
  ghost predicate Partners<S, T>(s: seq<S>, t: seq<T>, marks: seq<bool>, x: S, y: T)
    requires |s| == |t| == |marks|
  {
    exists i :: 0 <= i < |s| && marks[i] && s[i] == x && t[i] == y
  }

  lemma PartnersInFront<S, T>(s: seq<S>, t: seq<T>, marks: seq<bool>, x: S, y: T)
    requires |s| == |t| == |marks| && s != []
    requires var n := |s| - 1; Partners(s[..n], t[..n], marks[..n], x, y)
    ensures Partners(s, t, marks, x, y)
  {
    var n := |s| - 1;
    var i :| 0 <= i < n && marks[..n][i] && s[..n][i] == x && t[..n][i] == y;
    assert marks[i] && s[i] == x && t[i] == y;
  }

  /** Keeping the same places of two lists keeps their elements paired. */
  lemma {:induction false} KeptStayPaired<S, T>(s: seq<S>, t: seq<T>, marks: seq<bool>)
    requires |s| == |t| == |marks|
    ensures |Kept(s, marks)| == |Kept(t, marks)|
    ensures forall k :: 0 <= k < |Kept(s, marks)| ==> Partners(s, t, marks, Kept(s, marks)[k], Kept(t, marks)[k])
  {
    if s != [] {
      var n := |s| - 1;
      KeptStayPaired(s[..n], t[..n], marks[..n]);
      forall k | 0 <= k < |Kept(s, marks)|
        ensures Partners(s, t, marks, Kept(s, marks)[k], Kept(t, marks)[k])
      {
        if k < |Kept(s[..n], marks[..n])| {
          PartnersInFront(s, t, marks, Kept(s, marks)[k], Kept(t, marks)[k]);
        } else {
          assert marks[n] && s[n] == Kept(s, marks)[k] && t[n] == Kept(t, marks)[k];
        }
      }
    }
  }

  lemma {:induction false} KeptIsDistinct(s: seq<Address>, marks: seq<bool>)
    requires |s| == |marks| && Distinct(s)
    ensures Distinct(Kept(s, marks))
  {
    if s != [] {
      var n := |s| - 1;
      KeptIsDistinct(s[..n], marks[..n]);
      KeptExactlyWhen(s[..n], marks[..n], s[n]);
    }
  }

  /** A server is found among those kept exactly when it was marked, with the same partner. */
  lemma KeptIsFound<T>(s: seq<Address>, t: seq<T>, marks: seq<bool>, a: Address)
    requires |s| == |t| == |marks| && Distinct(s)
    ensures |Kept(s, marks)| == |Kept(t, marks)|
    ensures var i, j := Index(s, a), Index(Kept(s, marks), a);
            if i >= 0 && marks[i] then j >= 0 && Kept(t, marks)[j] == t[i] else j < 0
  {
    KeptStayPaired(s, t, marks);
    KeptExactlyWhen(s, marks, a);
  }

  // ---------------------------------------------------------------- choosing a server

  /** The position of the first smallest load below the limit, or -1. */
  function FirstLeast(loads: seq<int>): (k: int)
    ensures LeastSoFar(loads, |loads|, k)
  {
    if loads == [] then -1
    else
      var n := |loads| - 1;
      var k := FirstLeast(loads[..n]);
      if loads[n] < (if k < 0 then INT_MAX else loads[k]) then n else k
  }

  method NextPlace(index: nat, n: nat) returns (next: nat)
    requires index < n
    ensures next == Around(index, if n == 1 then 0 else 1, n)
  {
    WrapOnce(index + 1, n);
    next := (index + 1) % n;
  }

  /** The first smallest of the first k loads is at f, or none is below the limit. */
  predicate LeastSoFar(loads: seq<int>, k: nat, f: int)
  {
    k <= |loads| && -1 <= f < k &&
    forall j :: 0 <= j < k ==>
      if f < 0 then loads[j] >= INT_MAX else loads[f] < INT_MAX && loads[f] <= loads[j] && (j < f ==> loads[f] < loads[j])
  }

  lemma LeastNext(loads: seq<int>, k: nat, f: int)
    requires k < |loads| && LeastSoFar(loads, k, f)
    ensures LeastSoFar(loads, k + 1, if loads[k] < (if f < 0 then INT_MAX else loads[f]) then k else f)
  {
  }

  lemma NextAround(start: nat, k: nat, n: nat)
    requires start < n && k < n
    ensures var next := Around(Around(start, k, n), if n == 1 then 0 else 1, n);
            (next == start <==> k + 1 == n) && (k + 1 < n ==> next == Around(start, k + 1, n))
  {
  }

  lemma FirstLeastIs(loads: seq<int>, f: int)
    requires LeastSoFar(loads, |loads|, f)
    ensures f == FirstLeast(loads)
  {
  }

  function Rotated<T>(s: seq<T>, start: nat): (r: seq<T>)
    requires start <= |s|
    ensures |r| == |s|
  {
    s[start..] + s[..start]
  }

  /** The k-th place met going round n places from an offset. */
  function Met(offset: nat, k: nat, n: nat): (i: nat)
    requires k < n
    ensures i < n
  {
    Around(offset % n, k, n)
  }

  function Around(start: nat, k: nat, n: nat): (i: nat)
    requires start < n && k < n
    ensures i < n
  {
    if start + k < n then start + k else start + k - n
  }

  lemma RotatedAt<T>(s: seq<T>, offset: nat, k: nat)
    requires k < |s|
    ensures Rotated(s, offset % |s|)[k] == s[Met(offset, k, |s|)]
  {
    WrapOnce(offset % |s| + k, |s|);
  }

  lemma WrapOnce(x: nat, n: nat)
    requires 0 < n && x < 2 * n
    ensures x % n == if x < n then x else x - n
  {
  }

  /** The position chosen among servers with these loads, or -1. */
  function Choice(loads: seq<int>, offset: nat): (c: int)
    ensures -1 <= c < |loads|
  {
    if loads == [] then -1
    else
      var k := FirstLeast(Rotated(loads, offset % |loads|));
      if k < 0 then -1 else Met(offset, k, |loads|)
  }

  function Pick(candidates: seq<Address>, loads: seq<int>, offset: nat): Option<Address>
    requires |loads| == |candidates|
  {
    var c := Choice(loads, offset);
    if c < 0 then None else Some(candidates[c])
  }

  /** The choice has the fewest connections in use; among equals it is the first met going
      round from the offset. */
  lemma ChoiceIsFirstLeast(loads: seq<int>, offset: nat)
    ensures var n, c := |loads|, Choice(loads, offset);
            if c < 0 then forall j :: 0 <= j < n ==> loads[Met(offset, j, n)] >= INT_MAX
            else loads[c] < INT_MAX && (forall j :: 0 <= j < n ==> loads[c] <= loads[Met(offset, j, n)]) &&
                 exists k :: (0 <= k < n && c == Met(offset, k, n) &&
                              forall j :: 0 <= j < k ==> loads[c] < loads[Met(offset, j, n)])
  {
    if loads != [] {
      var n := |loads|;
      var r := Rotated(loads, offset % n);
      var k := FirstLeast(r);
      forall j | 0 <= j < n
        ensures r[j] == loads[Met(offset, j, n)]
      {
        RotatedAt(loads, offset, j);
      }
      if k >= 0 {
        assert Choice(loads, offset) == Met(offset, k, n);
      }
    }
  }

  /** Going round meets every place, and none twice. */
  lemma MetOnce(offset: nat, n: nat, i: nat)
    requires i < n
    ensures exists k: nat :: k < n && Met(offset, k, n) == i
    ensures forall j: nat, k: nat :: j < k < n ==> Met(offset, j, n) != Met(offset, k, n)
  {
    var start := offset % n;
    forall k: nat | k < n
      ensures Met(offset, k, n) == if start + k < n then start + k else start + k - n
    {
      WrapOnce(start + k, n);
    }
    assert Met(offset, if i >= start then i - start else i + n - start, n) == i;
  }

  /** The element at a position that keeps on counting round. */
  function Turn<T>(s: seq<T>, p: nat): T
    requires s != []
  {
    s[p % |s|]
  }

  lemma TurnOf<T>(s: seq<T>, p: nat)
    requires s != []
    ensures 0 <= p % |s| < |s| && Turn(s, p) == s[p % |s|]
  {
  }

  /** The choice is the least of all, and the first such position counting from the offset. */
  lemma LeastInTurn(loads: seq<int>, offset: nat)
    ensures var n, c := |loads|, Choice(loads, offset);
            if c < 0 then forall j :: 0 <= j < n ==> loads[j] >= INT_MAX
            else loads[c] < INT_MAX && (forall j :: 0 <= j < n ==> loads[c] <= loads[j]) &&
                 exists p: nat :: (offset <= p < offset + n && p % n == c &&
                                   forall q: nat :: offset <= q < p ==> loads[c] < Turn(loads, q))
  {
    hide Choice, Met, Turn;
    var n, c := |loads|, Choice(loads, offset);
    ChoiceIsFirstLeast(loads, offset);
    forall j | 0 <= j < n
      ensures if c < 0 then loads[j] >= INT_MAX else loads[c] <= loads[j]
    {
      MetOnce(offset, n, j);
      var t: nat :| t < n && Met(offset, t, n) == j;
    }
    if c >= 0 {
      var k :| 0 <= k < n && c == Met(offset, k, n) && forall j :: 0 <= j < k ==> loads[c] < loads[Met(offset, j, n)];
      StepsRound(offset, k, n);
      forall q: nat | offset <= q < offset + k
        ensures loads[c] < Turn(loads, q)
      {
        StepsRound(offset, q - offset, n);
        TurnOf(loads, q);
      }
      assert (offset + k) % n == c;
    }
  }

  predicate EqualLoads(loads: seq<int>)
  {
    forall j :: 0 <= j < |loads| ==> loads[j] == loads[0] < INT_MAX
  }

  lemma EqualLoadsTakeTheOffset(loads: seq<int>, offset: nat)
    requires loads != [] && EqualLoads(loads)
    ensures Choice(loads, offset) == offset % |loads|
  {
    var start := offset % |loads|;
    var r := Rotated(loads, start);
    WrapOnce(start, |loads|);
    assert r[0] == loads[0];
    assert forall j :: 0 <= j < |r| ==> r[j] == loads[0];
    assert FirstLeast(r) == 0;
  }

  /** With equal loads, |loads| offsets in a row choose every server exactly once. */
  lemma EqualLoadsRoundRobin(loads: seq<int>, offset: nat, server: nat)
    requires server < |loads| && EqualLoads(loads)
    ensures exists o: nat :: offset <= o < offset + |loads| && Choice(loads, o) == server
    ensures forall o: nat, p: nat :: offset <= o < p < offset + |loads| ==> Choice(loads, o) != Choice(loads, p)
  {
    var n := |loads|;
    forall o: nat | offset <= o < offset + n
      ensures Choice(loads, o) == Met(offset, o - offset, n)
    {
      EqualLoadsTakeTheOffset(loads, o);
      StepsRound(offset, o - offset, n);
    }
    MetOnce(offset, n, server);
    var k: nat :| k < n && Met(offset, k, n) == server;
    assert Choice(loads, offset + k) == server;
  }

  lemma StepsRound(offset: nat, t: nat, n: nat)
    requires t < n
    ensures (offset + t) % n == Met(offset, t, n)
  {
    var q, r := offset / n, offset % n;
    Quotient(offset, n);
    if r + t < n {
      RemainderIs(offset + t, n, q, r + t);
    } else {
      RemainderIs(offset + t, n, q + 1, r + t - n);
    }
    WrapOnce(r + t, n);
  }

  lemma Quotient(x: nat, n: nat)
    requires n > 0
    ensures x == (x / n) * n + x % n && (x / n) * n + n == (x / n + 1) * n
  {
  }

  lemma RemainderIs(x: nat, n: nat, q: nat, r: nat)
    requires x == q * n + r && r < n
    ensures x % n == r
  {
    var d := x / n - q;
    assert d * n == r - x % n;
    assert d >= 1 ==> d * n >= n;
    assert d <= -1 ==> d * n + n <= 0;
  }

  // ---------------------------------------------------------------- finding a routing table

  /** What a router answers to the discovery procedure. */
  type Reply = r: seq<Value> | Complete(r) witness [String(TTL_KEY), Integer(0), String(SERVERS_KEY), Null]

  /** One pass of the refresh loop: the time it looks at the table and, should the table have
      expired, the initial routers the resolver gives, the routers that answer, and when. */
  datatype Pass = Pass(now: int, resolved: seq<Address>, replies: map<Address, Reply>, answered: int)

  /** The routers asked: those of the table, then the initial ones. */
  function Asked(routers: seq<Address>, resolved: seq<Address>, own: Address): seq<Address>
  {
    AddedAll(FirstSeen(routers), if resolved == [] then [own] else FirstSeen(resolved))
  }

  /** The routers of the table are asked first, in their order, and then the initial ones that
      are not among them; without initial routers that is the pool's own address. */
  lemma TableRoutersAreAskedFirst(routers: seq<Address>, resolved: seq<Address>, own: Address)
    requires Distinct(routers)
    ensures routers <= Asked(routers, resolved, own) && Distinct(Asked(routers, resolved, own))
    ensures forall a :: a in Asked(routers, resolved, own)[|routers|..] <==>
                        a !in routers && if resolved == [] then a == own else a in resolved
    ensures var others := Asked(routers, resolved, own)[|routers|..];
            forall i, j :: 0 <= i < j < |others| && resolved != [] ==>
              Index(resolved, others[i]) < Index(resolved, others[j])
  {
    hide Index, AddedAll, FirstSeen;
    FirstSeenOfDistinct(routers);
    var initial := if resolved == [] then [own] else FirstSeen(resolved);
    FirstSeenKeepsOrder(resolved);
    AddedAllIsUnion(routers, initial);
    AddedInOrder(routers, initial);
    var asked := AddedAll(routers, initial);
    var others := asked[|routers|..];
    assert asked == routers + others;
    forall a
      ensures a in others <==> a in asked && a !in routers
    {
      assert a in others ==> exists i :: |routers| <= i < |asked| && asked[i] == a;
    }
    forall i, j | 0 <= i < j < |others| && resolved != []
      ensures Index(resolved, others[i]) < Index(resolved, others[j])
    {
      var k, l := Index(initial, others[i]), Index(initial, others[j]);
      assert k < l && others[i] in initial && others[j] in initial;
    }
  }

  predicate Answers(router: Address, replies: map<Address, Reply>)
  {
    router in replies && WellFormed(replies[router])
  }

  /** The first of the routers asked that gives a usable answer, or -1. */
  function FirstAnswer(asked: seq<Address>, replies: map<Address, Reply>): (i: int)
    ensures -1 <= i < |asked|
    ensures i >= 0 ==> Answers(asked[i], replies)
    ensures forall j :: 0 <= j < (if i < 0 then |asked| else i) ==> !Answers(asked[j], replies)
  {
    if asked == [] then -1
    else if Answers(asked[0], replies) then 0
    else
      var i := FirstAnswer(asked[1..], replies);
      if i < 0 then -1 else i + 1
  }

  /** The table a pass brings, if some router answers. */
  function Answered(t: Table, pass: Pass, own: Address): Option<Table>
  {
    var asked := Asked(t.routers, pass.resolved, own);
    var i := FirstAnswer(asked, pass.replies);
    if i < 0 then None else Some(TableOf(pass.replies[asked[i]], pass.answered))
  }

  datatype Refreshed = Fresh(now: int) | Unreachable | StillStale

  /** The table after these passes of the refresh loop, and how the loop stands. */
  function AfterPasses(t: Table, mode: AccessMode, passes: seq<Pass>, own: Address): (r: (Table, Refreshed))
    ensures r.1.Fresh? ==>
              r.1.now < r.0.expires && r.0.routers != [] &&
              (mode == ReadMode ==> r.0.readers != []) && (mode == WriteMode ==> r.0.writers != []) &&
              exists i :: 0 <= i < |passes| && passes[i].now == r.1.now
    decreases |passes|
  {
    if passes == [] then (t, StillStale)
    else if !Expired(t, mode, passes[0].now) then (t, Fresh(passes[0].now))
    else
      match Answered(t, passes[0], own)
      case None => (t, Unreachable)
      case Some(u) =>
        var r := AfterPasses(u, mode, passes[1..], own);
        assert r.1.Fresh? ==> exists i :: 0 <= i < |passes| - 1 && passes[1..][i] == passes[i + 1] && passes[i + 1].now == r.1.now;
        r
  }

  /** The table was taken from an answer some router gave in one of these passes. */
  ghost predicate TakenFromAnswer(t: Table, passes: seq<Pass>)
  {
    exists i, router :: 0 <= i < |passes| && Answers(router, passes[i].replies) &&
                        AsMentioned(t, passes[i].replies[router], passes[i].answered)
  }

  /** The table is not past its time, and has a router and a server for the mode. */
  ghost predicate Serves(t: Table, mode: AccessMode, now: int)
  {
    now < t.expires && t.routers != [] && (mode == ReadMode ==> t.readers != []) &&
    (mode == WriteMode ==> t.writers != [])
  }

  lemma FreshExactlyWhen(t: Table, mode: AccessMode, now: int)
    ensures !Expired(t, mode, now) <==> Serves(t, mode, now)
  {
  }

  /** A table that serves the mode at the first pass stays as it is; one that does not is
      replaced, or no router answers. */
  lemma RefreshedExactlyWhen(t: Table, mode: AccessMode, passes: seq<Pass>, own: Address)
    requires passes != []
    ensures Serves(t, mode, passes[0].now) ==> AfterPasses(t, mode, passes, own) == (t, Fresh(passes[0].now))
    ensures !Serves(t, mode, passes[0].now) ==>
              if Answered(t, passes[0], own).None? then AfterPasses(t, mode, passes, own) == (t, Unreachable)
              else TakenFromAnswer(AfterPasses(t, mode, passes, own).0, passes)
  {
    hide Answered, TakenFromAnswer, AsMentioned, Answers;
    FreshExactlyWhen(t, mode, passes[0].now);
    if Expired(t, mode, passes[0].now) && Answered(t, passes[0], own).Some? {
      AnswerIsTaken(t, passes, own);
      StillTaken(Answered(t, passes[0], own).value, mode, passes, own);
    }
  }

  /** The table of a pass is that of the first router asked that gives a usable answer. */
  lemma AnsweredByFirst(t: Table, pass: Pass, own: Address)
    ensures var asked := Asked(t.routers, pass.resolved, own);
            match Answered(t, pass, own)
            case None => forall r :: r in asked ==> !Answers(r, pass.replies)
            case Some(u) =>
              exists i :: 0 <= i < |asked| && Answers(asked[i], pass.replies) &&
                          (forall j :: 0 <= j < i ==> !Answers(asked[j], pass.replies)) &&
                          AsMentioned(u, pass.replies[asked[i]], pass.answered)
  {
    hide AsMentioned;
    var asked := Asked(t.routers, pass.resolved, own);
    var i := FirstAnswer(asked, pass.replies);
    if i >= 0 {
      TableIsAsMentioned(pass.replies[asked[i]], pass.answered);
    }
  }

  lemma AnswerIsTaken(t: Table, passes: seq<Pass>, own: Address)
    requires passes != [] && Answered(t, passes[0], own).Some?
    ensures TakenFromAnswer(Answered(t, passes[0], own).value, passes)
  {
    hide AsMentioned, Answered;
    AnsweredByFirst(t, passes[0], own);
  }

  lemma TakenFromLater(t: Table, passes: seq<Pass>)
    requires passes != [] && TakenFromAnswer(t, passes[1..])
    ensures TakenFromAnswer(t, passes)
  {
    hide AsMentioned;
    var others := passes[1..];
    var i, router :| 0 <= i < |others| && Answers(router, others[i].replies) &&
      AsMentioned(t, others[i].replies[router], others[i].answered);
    assert passes[i + 1] == others[i];
  }

  /** Once taken from an answer, the table is always one taken from an answer. */
  lemma {:induction false} StillTaken(t: Table, mode: AccessMode, passes: seq<Pass>, own: Address)
    requires passes != [] && TakenFromAnswer(t, passes)
    ensures TakenFromAnswer(AfterPasses(t, mode, passes[1..], own).0, passes)
    decreases |passes|
  {
    hide TakenFromAnswer, Answered;
    var others := passes[1..];
    if others != [] && Expired(t, mode, others[0].now) && Answered(t, others[0], own).Some? {
      AnswerIsTaken(t, others, own);
      StillTaken(Answered(t, others[0], own).value, mode, others, own);
      TakenFromLater(AfterPasses(t, mode, others, own).0, passes);
    }
  }

  datatype RoutingResult =
    | Handed(handle: Handle)
    | Refused(reason: AcquireResult)
    | NoTable
    | NoServers
    | Unfinished

  // ---------------------------------------------------------------- the pool

  function ServersFor(t: Table, mode: AccessMode): seq<Address>
  {
    if mode == ReadMode then t.readers else t.writers
  }

  /** A connection handed out is one to this server; without a server there is none. */
  predicate FromServer(result: RoutingResult, server: Option<Address>)
  {
    (result == NoServers <==> server == None) &&
    (result.Handed? ==> server == Some(result.handle.pool.address))
  }

  /** Nothing happened to this connection, nor to who holds it. */
  twostate predicate Undisturbed(h: Handle)
    reads h.pool
  {
    h.index < |old(h.pool.entries)| && h.index < |h.pool.entries| &&
    h.pool.entries[h.index] == old(h.pool.entries[h.index])
  }

  class RoutingPool {
    const address: Address
    const maxSize: nat
    const table: RoutingTable
    var servers: AddressSet
    var serverPools: seq<DirectPool>
    var readersOffset: nat
    var writersOffset: nat
    ghost var held: set<Handle>
    ghost var repr: set<object>

    ghost predicate Valid()
      reads this, repr
    {
      {table, table.readers, table.writers, table.routers} <= repr && Owned() && Paired() && HoldersKnown()
    }

    ghost predicate Owned()
      reads this`repr, this`servers, this`serverPools, table, table.readers, table.writers, table.routers
    {
      {this, servers} <= repr &&
      (forall p :: p in serverPools ==> p in repr) &&
      servers !in {table.readers, table.writers, table.routers} && table.Valid()
    }

    /** No server twice, and pool i is the pool of server i. */
    ghost predicate Paired()
      reads this`servers, this`serverPools, servers, serverPools
    {
      Distinct(servers.elements) && |serverPools| == |servers.elements| &&
      forall i :: 0 <= i < |serverPools| ==> serverPools[i].Valid() && serverPools[i].address == servers.elements[i]
    }

    /** The pool of every held connection is here. */
    ghost predicate HoldersKnown()
      reads this`held, this`serverPools, serverPools
    {
      (forall h :: h in held ==> h.pool in serverPools) &&
      (forall h :: h in held ==> h.pool in serverPools && h.index in h.pool.held) &&
      forall p, i :: p in serverPools && i in p.held ==> Handle(p, i) in held
    }

    constructor (address: Address, maxSize: nat)
      ensures Valid() && fresh(repr) && held == {} && serverPools == [] && servers.elements == []
      ensures this.address == address && this.maxSize == maxSize
    {
      this.address := address;
      this.maxSize := maxSize;
      servers := new AddressSet();
      serverPools := [];
      table := new RoutingTable();
      readersOffset := 0;
      writersOffset := 0;
      held := {};
      new;
      repr := {this, servers, table, table.readers, table.writers, table.routers};
    }

    /** The position of a server, which is added with a pool of its own when asked for. */
    method EnsureServer(server: Address, create: bool) returns (index: int)
      requires Valid()
      modifies this`serverPools, this`repr, servers
      ensures Valid() && fresh(repr - old(repr))
      ensures index == Index(servers.elements, server) && (create ==> index >= 0)
      ensures !create || server in old(servers.elements) ==>
                serverPools == old(serverPools) && servers.elements == old(servers.elements)
      ensures create && server !in old(servers.elements) ==>
                servers.elements == old(servers.elements) + [server] && |serverPools| == |old(serverPools)| + 1 &&
                old(serverPools) <= serverPools && fresh(serverPools[index]) &&
                serverPools[index].Model() == NewPool(maxSize)
    {
      index := servers.IndexOf(server);
      if create && index < 0 {
        index := AddServer(server);
      }
    }

    method AddServer(server: Address) returns (index: int)
      requires Valid() && server !in servers.elements
      modifies this`serverPools, this`repr, servers
      ensures Valid() && fresh(repr - old(repr)) && index == |old(serverPools)|
      ensures servers.elements == old(servers.elements) + [server] && |serverPools| == |old(serverPools)| + 1
      ensures old(serverPools) <= serverPools && fresh(serverPools[index])
      ensures serverPools[index].Model() == NewPool(maxSize)
    {
      index := servers.Add(server);
      var pool := new DirectPool(server, maxSize);
      serverPools := serverPools + [pool];
      repr := repr + {pool};
      assert Owned();
      assert HoldersKnown();
    }

    /** Whether the routing table has the server in any role. */
    predicate Active(server: Address)
      reads table, table.readers, table.writers, table.routers
    {
      server in table.routers.elements || server in table.writers.elements || server in table.readers.elements
    }

    /** Removes exactly the servers that are absent from the table and have no connection in
        use; the others keep their order and their pools, which are left alone. */
    method Cleanup() returns (keep: seq<bool>)
      requires Valid()
      modifies this`servers, this`serverPools, this`repr, serverPools
      ensures Valid() && fresh(repr - old(repr))
      ensures |keep| == |old(serverPools)|
      ensures forall i :: 0 <= i < |keep| ==>
                keep[i] == old(servers.elements[i] in table.routers.elements ||
                               servers.elements[i] in table.writers.elements ||
                               servers.elements[i] in table.readers.elements || serverPools[i].inUse != 0)
      ensures serverPools == Kept(old(serverPools), keep) && servers.elements == Kept(old(servers.elements), keep)
      ensures PoolsKept(old(serverPools)) && forall i :: 0 <= i < |keep| && !keep[i] ==> Closed(old(serverPools)[i])
    {
      hide Kept, Closed;
      var count;
      keep, count := Mark();
      if count == 0 {
        AllKept(serverPools, keep);
        AllKept(servers.elements, keep);
      } else {
        Prune(keep);
      }
    }

    method Prune(keep: seq<bool>)
      requires Valid() && |keep| == |serverPools|
      requires forall i :: 0 <= i < |keep| ==> keep[i] == InUseOrActive(i)
      modifies this`servers, this`serverPools, this`repr, serverPools
      ensures Valid() && fresh(repr - old(repr))
      ensures serverPools == Kept(old(serverPools), keep) && servers.elements == Kept(old(servers.elements), keep)
      ensures PoolsKept(old(serverPools)) && forall i :: 0 <= i < |keep| && !keep[i] ==> Closed(old(serverPools)[i])
    {
      hide Kept;
      var oldPools := serverPools;
      Select(keep);
      Drop(oldPools, keep);
    }

    /** No server has more or fewer connections in use than before. */
    twostate predicate SameLoads()
      reads this`servers, this`serverPools, servers, serverPools
    {
      |serverPools| == |servers.elements| && |old(serverPools)| == |old(servers.elements)| &&
      forall a :: Load(a) == old(Load(a))
    }

    /** The servers a cleanup removes had none in use. */
    twostate lemma CleanupKeepsLoads(keep: seq<bool>)
      requires old(Valid()) && |keep| == |old(serverPools)| && PoolsKept(old(serverPools))
      requires forall i :: 0 <= i < |keep| ==> keep[i] == old(InUseOrActive(i))
      requires serverPools == Kept(old(serverPools), keep) && servers.elements == Kept(old(servers.elements), keep)
      ensures SameLoads()
    {
      KeptStayPaired(old(servers.elements), old(serverPools), keep);
      forall a
        ensures Load(a) == old(Load(a))
      {
        KeptIsFound(old(servers.elements), old(serverPools), keep, a);
      }
    }

    /** Every server with a pool is in the table or has connections in use. */
    ghost predicate Tidy()
      reads this`servers, this`serverPools, servers, serverPools, table, table.readers, table.writers, table.routers
    {
      |serverPools| == |servers.elements| &&
      forall i :: 0 <= i < |serverPools| ==>
        servers.elements[i] in table.routers.elements || servers.elements[i] in table.writers.elements ||
        servers.elements[i] in table.readers.elements || serverPools[i].inUse != 0
    }

    twostate lemma TidyStays()
      requires old(Tidy()) && serverPools == old(serverPools) && servers == old(servers) && unchanged(servers)
      requires table.Contents() == old(table.Contents())
      requires forall p :: p in serverPools ==> p.Model() == old(p.Model())
      ensures Tidy()
    {
      forall i | 0 <= i < |serverPools|
        ensures Active(servers.elements[i]) || serverPools[i].inUse != 0
      {
        var pool := serverPools[i];
        assert pool in serverPools && pool.Model() == old(pool.Model());
      }
    }

    /** That is how a cleanup leaves the pool. */
    twostate lemma CleanupTidies(keep: seq<bool>)
      requires old(Valid()) && |keep| == |old(serverPools)| && PoolsKept(old(serverPools))
      requires unchanged(table) && unchanged(table.readers) && unchanged(table.writers) && unchanged(table.routers)
      requires forall i :: 0 <= i < |keep| ==> keep[i] == old(InUseOrActive(i))
      requires serverPools == Kept(old(serverPools), keep) && servers.elements == Kept(old(servers.elements), keep)
      ensures Tidy()
    {
      KeptStayPaired(old(servers.elements), old(serverPools), keep);
      forall i | 0 <= i < |serverPools|
        ensures Active(servers.elements[i]) || serverPools[i].inUse != 0
      {
        var pool := serverPools[i];
        assert Partners(old(servers.elements), old(serverPools), keep, servers.elements[i], pool);
        assert pool in serverPools && pool.Model() == old(pool.Model());
      }
    }

    /** Destroys the pools that were not kept, none of which is in the list any more. */
    method Drop(pools: seq<DirectPool>, keep: seq<bool>)
      requires Valid() && |pools| == |keep| && serverPools == Kept(pools, keep)
      requires forall i, j :: 0 <= i < j < |pools| ==> pools[i] != pools[j]
      requires forall i :: 0 <= i < |pools| && !keep[i] ==> pools[i].Valid() && pools[i].held == {}
      modifies set i | 0 <= i < |pools| && !keep[i] :: pools[i]
      ensures Valid() && forall p :: p in serverPools ==> p.Model() == old(p.Model()) && p.held == old(p.held)
      ensures forall i :: 0 <= i < |pools| && !keep[i] ==> Closed(pools[i])
    {
      forall p | p in serverPools
        ensures p !in set i | 0 <= i < |pools| && !keep[i] :: pools[i]
      {
        KeptExactlyWhen(pools, keep, p);
      }
      DestroyOthers(pools, keep);
      forall p | p in serverPools
        ensures p.Model() == old(p.Model()) && p.held == old(p.held) && p.Valid()
      {
        assert old(p.Valid());
      }
    }

    method ActiveServers() returns (active: AddressSet)
      ensures fresh(active) && forall a :: a in active.elements <==> old(Active(a))
    {
      active := new AddressSet();
      active.AddAll(table.routers);
      active.AddAll(table.writers);
      active.AddAll(table.readers);
      AddedAllIsUnion([], table.routers.elements);
      AddedAllIsUnion(AddedAll([], table.routers.elements), table.writers.elements);
      AddedAllIsUnion(AddedAll(AddedAll([], table.routers.elements), table.writers.elements), table.readers.elements);
    }

    predicate InUseOrActive(i: nat)
      requires i < |serverPools| && i < |servers.elements|
      reads this, servers, serverPools, table, table.readers, table.writers, table.routers
    {
      Active(servers.elements[i]) || serverPools[i].inUse != 0
    }

    /** Marks the servers to be kept, and counts the others. */
    method Mark() returns (keep: seq<bool>, count: nat)
      requires |serverPools| == |servers.elements|
      ensures |keep| == |serverPools|
      ensures forall i :: 0 <= i < |keep| ==> keep[i] == old(InUseOrActive(i))
      ensures count == 0 <==> AllSet(keep)
    {
      var active := ActiveServers();
      keep := [];
      count := 0;
      for i := 0 to |serverPools|
        invariant forall a :: a in active.elements <==> old(Active(a))
        invariant |keep| == i && forall k :: 0 <= k < i ==> keep[k] == old(InUseOrActive(k))
        invariant count == 0 <==> AllSet(keep)
      {
        var kept := MarkOne(active, i);
        assert AllSet(keep + [kept]) <==> AllSet(keep) && kept by {
          assert forall k :: 0 <= k < i ==> (keep + [kept])[k] == keep[k];
          assert (keep + [kept])[i] == kept;
        }
        keep := keep + [kept];
        count := count + if kept then 0 else 1;
      }
    }

    method MarkOne(active: AddressSet, i: nat) returns (kept: bool)
      requires i < |serverPools| && i < |servers.elements|
      requires servers.elements[i] in active.elements <==> Active(servers.elements[i])
      ensures kept == old(InUseOrActive(i))
    {
      var found := active.IndexOf(servers.elements[i]);
      kept := found >= 0 || serverPools[i].inUse != 0;
    }

    /** Replaces the server set and the pools by those kept. */
    method Select(keep: seq<bool>)
      requires Valid() && |keep| == |serverPools|
      requires forall i :: 0 <= i < |keep| && !keep[i] ==> serverPools[i].held == {}
      modifies this`servers, this`serverPools, this`repr
      ensures Valid() && fresh(repr - old(repr))
      ensures serverPools == Kept(old(serverPools), keep) && servers.elements == Kept(old(servers.elements), keep)
    {
      KeptPoolsArePaired(keep);
      var newServers, newPools := Rebuild(keep);
      servers := newServers;
      serverPools := newPools;
      repr := repr + {servers};
      assert Owned();
      assert Paired();
    }

    method Rebuild(keep: seq<bool>) returns (newServers: AddressSet, newPools: seq<DirectPool>)
      requires |keep| == |serverPools| == |servers.elements| && Distinct(servers.elements)
      ensures fresh(newServers) && newServers.elements == Kept(servers.elements, keep)
      ensures newPools == Kept(serverPools, keep)
    {
      newServers := new AddressSet();
      newPools := [];
      for i := 0 to |serverPools|
        invariant newServers.elements == Kept(servers.elements[..i], keep[..i])
        invariant newPools == Kept(serverPools[..i], keep[..i])
      {
        KeptNext(serverPools, keep, i);
        KeptNext(servers.elements, keep, i);
        if keep[i] {
          NotYetKept(servers.elements, keep, i);
          var index := newServers.Add(servers.elements[i]);
          newPools := newPools + [serverPools[i]];
        }
      }
      assert servers.elements[..|keep|] == servers.elements && serverPools[..|keep|] == serverPools;
      assert keep[..|keep|] == keep;
    }

    // ---------------------------------------------------------------- choosing a server

    /** The connections in use with a server; none when it has no pool. */
    function Load(server: Address): int
      requires |serverPools| == |servers.elements|
      reads this`servers, this`serverPools, servers, serverPools
    {
      var i := Index(servers.elements, server);
      if i < 0 then 0 else serverPools[i].inUse
    }

    function Loads(candidates: seq<Address>): (loads: seq<int>)
      requires |serverPools| == |servers.elements|
      reads this`servers, this`serverPools, servers, serverPools
      ensures |loads| == |candidates| && forall i :: 0 <= i < |loads| ==> loads[i] == Load(candidates[i])
    {
      if candidates == [] then []
      else Loads(candidates[..|candidates| - 1]) + [Load(candidates[|candidates| - 1])]
    }

    /** The candidate with the fewest connections in use. */
    function Chosen(candidates: seq<Address>, offset: nat): Option<Address>
      requires |serverPools| == |servers.elements|
      reads this`servers, this`serverPools, servers, serverPools
    {
      Pick(candidates, Loads(candidates), offset)
    }

    /** Server a has more connections in use than server b, or has some where b has no pool. */
    ghost predicate Busier(a: Address, b: Address)
      requires |serverPools| == |servers.elements|
      reads this`servers, this`serverPools, servers, serverPools
    {
      exists j :: 0 <= j < |serverPools| && servers.elements[j] == a && serverPools[j].inUse > 0 &&
                  forall i :: 0 <= i < |serverPools| && servers.elements[i] == b ==>
                    serverPools[j].inUse > serverPools[i].inUse
    }

    /** No candidate has fewer connections in use than this one, and those met before it going
        round from the offset have more. One without a pool has none in use. */
    ghost predicate FewestInUse(server: Address, candidates: seq<Address>, offset: nat)
      requires |serverPools| == |servers.elements|
      reads this`servers, this`serverPools, servers, serverPools
    {
      (forall i :: 0 <= i < |serverPools| && servers.elements[i] == server ==>
        serverPools[i].inUse < 0x7FFF_FFFF &&
        (forall j :: 0 <= j < |serverPools| && servers.elements[j] in candidates ==>
          serverPools[i].inUse <= serverPools[j].inUse) &&
        ((exists a :: a in candidates && a !in servers.elements) ==> serverPools[i].inUse == 0)) &&
      exists p: nat :: offset <= p < offset + |candidates| && Turn(candidates, p) == server &&
                       forall q: nat :: offset <= q < p ==> Busier(Turn(candidates, q), server)
    }

    /** Every candidate has a pool, and too many connections in use to be chosen. */
    ghost predicate AllBusy(candidates: seq<Address>)
      requires |serverPools| == |servers.elements|
      reads this`servers, this`serverPools, servers, serverPools
    {
      forall a :: a in candidates ==>
        exists j :: 0 <= j < |serverPools| && servers.elements[j] == a && serverPools[j].inUse >= 0x7FFF_FFFF
    }

    /** What the choice means for the connections that the pools have in use. */
    lemma ChosenHasFewestInUse(candidates: seq<Address>, offset: nat)
      requires Paired()
      ensures match Chosen(candidates, offset)
              case Some(server) => server in candidates && FewestInUse(server, candidates, offset)
              case None => AllBusy(candidates)
    {
      hide Choice, Loads, Index, Turn;
      var loads := Loads(candidates);
      var c := Choice(loads, offset);
      LeastInTurn(loads, offset);
      if c < 0 {
        LoadsAtLimit(candidates);
      } else {
        var p: nat :| offset <= p < offset + |loads| && p % |loads| == c &&
          forall q: nat :: offset <= q < p ==> loads[c] < Turn(loads, q);
        TurnOf(candidates, p);
        ChosenIsLeast(candidates, c);
        forall q: nat | offset <= q < p
          ensures Busier(Turn(candidates, q), candidates[c])
        {
          TurnOf(candidates, q);
          TurnOf(loads, q);
          IsBusier(candidates, q % |candidates|, c);
        }
      }
    }

    lemma LoadsAtLimit(candidates: seq<Address>)
      requires Paired() && forall j :: 0 <= j < |candidates| ==> Loads(candidates)[j] >= INT_MAX
      ensures AllBusy(candidates)
    {
      hide Loads, Index;
      forall a | a in candidates
        ensures exists j :: 0 <= j < |serverPools| && servers.elements[j] == a && serverPools[j].inUse >= 0x7FFF_FFFF
      {
        var x :| 0 <= x < |candidates| && candidates[x] == a;
        assert Loads(candidates)[x] == Load(a);
        var j := Index(servers.elements, a);
        assert servers.elements[j] == a && serverPools[j].inUse >= 0x7FFF_FFFF;
      }
    }

    lemma IsBusier(candidates: seq<Address>, x: nat, c: nat)
      requires Paired() && x < |candidates| && c < |candidates|
      requires Loads(candidates)[c] < Loads(candidates)[x]
      ensures Busier(candidates[x], candidates[c])
    {
      hide Loads;
      var j := Index(servers.elements, candidates[x]);
      assert Load(candidates[c]) < Load(candidates[x]);
      PoolsCountFromZero();
      assert servers.elements[j] == candidates[x] && serverPools[j].inUse > 0;
    }

    lemma PoolsCountFromZero()
      requires Paired()
      ensures forall i :: 0 <= i < |serverPools| ==> serverPools[i].inUse >= 0
    {
      forall i | 0 <= i < |serverPools|
        ensures serverPools[i].inUse >= 0
      {
        assert serverPools[i].Valid();
      }
    }

    lemma ChosenIsLeast(candidates: seq<Address>, c: nat)
      requires Paired() && c < |candidates| && Loads(candidates)[c] < INT_MAX
      requires forall x :: 0 <= x < |candidates| ==> Loads(candidates)[c] <= Loads(candidates)[x]
      ensures forall i :: 0 <= i < |serverPools| && servers.elements[i] == candidates[c] ==>
                serverPools[i].inUse < 0x7FFF_FFFF &&
                (forall j :: 0 <= j < |serverPools| && servers.elements[j] in candidates ==>
                  serverPools[i].inUse <= serverPools[j].inUse) &&
                ((exists a :: a in candidates && a !in servers.elements) ==> serverPools[i].inUse == 0)
    {
      hide Loads;
      PoolsCountFromZero();
      forall a | a in candidates
        ensures Load(candidates[c]) <= Load(a)
      {
        var x :| 0 <= x < |candidates| && candidates[x] == a;
        assert Loads(candidates)[x] == Load(a);
      }
      forall j | 0 <= j < |serverPools|
        ensures Load(servers.elements[j]) == serverPools[j].inUse
      {
        assert Index(servers.elements, servers.elements[j]) == j;
      }
    }

    /** Goes once round the candidates from the offset and takes the least loaded. */
    method SelectLeastConnected(candidates: AddressSet, offset: nat) returns (server: Option<Address>)
      requires |serverPools| == |servers.elements|
      ensures server == old(Chosen(candidates.elements, offset))
      ensures Paired() ==>
                match server
                case Some(a) => a in candidates.elements && FewestInUse(a, candidates.elements, offset)
                case None => AllBusy(candidates.elements)
    {
      hide FewestInUse, AllBusy, Loads, FirstLeast, Rotated, Index, Distinct;
      if Paired() {
        ChosenHasFewestInUse(candidates.elements, offset);
      }
      if |candidates.elements| == 0 {
        return None;
      }
      ghost var loads := Loads(candidates.elements);
      var start := offset % |candidates.elements|;
      server := GoRound(candidates.elements, start, loads);
    }

    method GoRound(list: seq<Address>, start: nat, ghost loads: seq<int>) returns (server: Option<Address>)
      requires start < |list| && |serverPools| == |servers.elements| && loads == Loads(list)
      ensures var f := FirstLeast(Rotated(loads, start));
              server == if f < 0 then None else Some(list[Around(start, f, |list|)])
    {
      var n := |list|;
      var index := start;
      var least := INT_MAX;
      server := None;
      ghost var k, f, r := 0, -1, Rotated(loads, start);
      while true
        invariant 0 <= k < n && index == Around(start, k, n) && LeastSoFar(r, k, f)
        invariant if f < 0 then server == None && least == INT_MAX
                  else server == Some(list[Around(start, f, n)]) && least == r[f]
        decreases n - k
      {
        var load := Load(list[index]);
        assert load == r[k];
        LeastNext(r, k, f);
        if load < least {
          server := Some(list[index]);
          least := load;
          f := k;
        }
        NextAround(start, k, n);
        index := NextPlace(index, n);
        if index == start {
          FirstLeastIs(r, f);
          return;
        }
        k := k + 1;
      }
    }

    // ---------------------------------------------------------------- refreshing the table

    /** Asks each router in turn until one gives a usable answer. */
    method UpdateTable(pass: Pass) returns (ok: bool)
      requires table.Valid()
      modifies table, table.readers, table.writers, table.routers
      ensures table.Valid() && ok == Answered(old(table.Contents()), pass, address).Some?
      ensures table.Contents() == if ok then Answered(old(table.Contents()), pass, address).value else old(table.Contents())
    {
      var routers := RoutersToAsk(pass.resolved);
      ghost var asked := routers.elements;
      for i := 0 to |routers.elements|
        invariant routers.elements == asked
        invariant table.Valid() && table.Contents() == old(table.Contents())
        invariant forall j :: 0 <= j < i ==> !Answers(routers.elements[j], pass.replies)
      {
        var router := routers.elements[i];
        if router in pass.replies {
          ok := table.Update(pass.replies[router], pass.answered);
          if ok {
            assert FirstAnswer(asked, pass.replies) == i;
            return;
          }
        }
      }
      assert FirstAnswer(asked, pass.replies) == -1;
      return false;
    }

    method RoutersToAsk(resolved: seq<Address>) returns (routers: AddressSet)
      ensures fresh(routers) && routers.elements == Asked(table.routers.elements, resolved, address)
    {
      var initial := new AddressSet();
      for i := 0 to |resolved|
        invariant initial.elements == FirstSeen(resolved[..i])
      {
        assert resolved[..i + 1] == resolved[..i] + [resolved[i]];
        FirstSeenLast(resolved[..i], resolved[i]);
        var _ := initial.Add(resolved[i]);
      }
      assert resolved[..|resolved|] == resolved;
      AddedAllIsUnion([], resolved);
      assert resolved != [] ==> resolved[0] in FirstSeen(resolved);
      if |initial.elements| == 0 {
        var _ := initial.Add(address);
        assert initial.elements == [address];
      }
      assert initial.elements == if resolved == [] then [address] else FirstSeen(resolved);
      routers := new AddressSet();
      routers.AddAll(table.routers);
      routers.AddAll(initial);
    }

    /** Refreshes the table until it serves the access mode or no router answers. Each pass of
        the loop uses one element of passes; nothing is said about how many it takes. Whatever
        servers are listed, they have as many connections in use as before. */
    method EnsureRoutingTable(mode: AccessMode, passes: seq<Pass>, ghost list: seq<Address>, ghost loads: seq<int>)
      returns (outcome: Refreshed)
      requires Valid() && Loads(list) == loads
      modifies this`servers, this`serverPools, this`repr, serverPools
      modifies table, table.readers, table.writers, table.routers
      ensures Valid() && fresh(repr - old(repr))
      ensures (table.Contents(), outcome) == AfterPasses(old(table.Contents()), mode, passes, address)
      ensures (forall h :: h in held ==> Undisturbed(h)) && Loads(list) == loads
      ensures outcome.Fresh? ==>
                outcome.now < table.expires && table.routers.elements != [] &&
                (mode == ReadMode ==> table.readers.elements != []) &&
                (mode == WriteMode ==> table.writers.elements != [])
      ensures passes != [] && old(Serves(table.Contents(), mode, passes[0].now)) ==>
                table.Contents() == old(table.Contents()) && outcome == Fresh(passes[0].now) &&
                serverPools == old(serverPools) && servers.elements == old(servers.elements)
      ensures passes != [] && !old(Serves(table.Contents(), mode, passes[0].now)) ==>
                (table.Contents() == old(table.Contents()) && outcome == Unreachable &&
                 serverPools == old(serverPools) && servers.elements == old(servers.elements)) ||
                (TakenFromAnswer(table.Contents(), passes) && Tidy())
    {
      if passes != [] {
        RefreshedExactlyWhen(table.Contents(), mode, passes, address);
        FreshExactlyWhen(table.Contents(), mode, passes[0].now);
      }
      hide Answered, Expired, Serves, Loads, TakenFromAnswer, Tidy, AfterPasses, Undisturbed;
      ghost var refreshed;
      outcome, refreshed := GoThroughPasses(mode, passes, list, loads);
    }

    /** The refresh loop; refreshed tells whether some pass has brought a table. */
    method GoThroughPasses(mode: AccessMode, passes: seq<Pass>, ghost list: seq<Address>, ghost loads: seq<int>)
      returns (outcome: Refreshed, ghost refreshed: bool)
      requires Valid() && Loads(list) == loads
      modifies this`servers, this`serverPools, this`repr, serverPools
      modifies table, table.readers, table.writers, table.routers
      ensures Valid() && fresh(repr - old(repr)) && Loads(list) == loads && forall h :: h in held ==> Undisturbed(h)
      ensures (table.Contents(), outcome) == AfterPasses(old(table.Contents()), mode, passes, address)
      ensures refreshed ==>
                passes != [] && Expired(old(table.Contents()), mode, passes[0].now) &&
                Answered(old(table.Contents()), passes[0], address).Some? && Tidy()
      ensures !refreshed ==>
                serverPools == old(serverPools) && servers.elements == old(servers.elements) &&
                table.Contents() == old(table.Contents()) &&
                (passes == [] || outcome == Unreachable || !Expired(table.Contents(), mode, passes[0].now))
    {
      hide Answered, Expired, Loads, Tidy;
      refreshed := false;
      for i := 0 to |passes|
        invariant Valid() && fresh(repr - old(repr)) && PoolsKept(old(serverPools)) && Loads(list) == loads
        invariant AfterPasses(old(table.Contents()), mode, passes, address) ==
                  AfterPasses(table.Contents(), mode, passes[i..], address)
        invariant refreshed == (i > 0)
        invariant refreshed ==>
                    Expired(old(table.Contents()), mode, passes[0].now) &&
                    Answered(old(table.Contents()), passes[0], address).Some? && Tidy()
        invariant !refreshed ==>
                    serverPools == old(serverPools) && servers.elements == old(servers.elements) &&
                    table.Contents() == old(table.Contents())
      {
        if !table.IsExpired(mode, passes[i].now) {
          return Fresh(passes[i].now), refreshed;
        }
        var ok := RefreshOnce(passes[i], list, loads);
        if !ok {
          return Unreachable, refreshed;
        }
        refreshed := true;
        assert passes[i..][1..] == passes[i + 1..];
      }
      return StillStale, refreshed;
    }

    /** Pools are only ever dropped, and those that stay are as they were. */
    twostate predicate PoolsKept(pools: seq<DirectPool>)
      reads this, pools
    {
      forall p :: p in serverPools ==> p in pools && p.Model() == old(p.Model()) && p.held == old(p.held)
    }

    method RefreshOnce(pass: Pass, ghost list: seq<Address>, ghost loads: seq<int>) returns (ok: bool)
      requires Valid() && Loads(list) == loads
      modifies this`servers, this`serverPools, this`repr, serverPools
      modifies table, table.readers, table.writers, table.routers
      ensures Valid() && fresh(repr - old(repr)) && PoolsKept(old(serverPools)) && Loads(list) == loads
      ensures ok == Answered(old(table.Contents()), pass, address).Some?
      ensures table.Contents() == if ok then Answered(old(table.Contents()), pass, address).value else old(table.Contents())
      ensures !ok ==> serverPools == old(serverPools) && servers.elements == old(servers.elements)
      ensures ok || old(Tidy()) ==> Tidy()
    {
      hide Loads, Tidy, Answered, HoldersKnown;
      ok := RefreshTable(pass);
      assert forall p :: p in serverPools ==> p.Model() == old(p.Model()) && p.held == old(p.held);
      if ok {
        CleanupQuietly(list, loads);
      } else if old(Tidy()) {
        TidyStays();
      }
    }

    /** Cleanup as the refresh loop needs it. */
    method CleanupQuietly(ghost list: seq<Address>, ghost loads: seq<int>)
      requires Valid() && Loads(list) == loads
      modifies this`servers, this`serverPools, this`repr, serverPools
      ensures Valid() && fresh(repr - old(repr)) && PoolsKept(old(serverPools)) && Loads(list) == loads && Tidy()
    {
      hide Kept, Tidy;
      assert forall i :: 0 <= i < |list| ==> loads[i] == old(Load(list[i]));
      var keep := Cleanup();
      CleanupTidies(keep);
      CleanupKeepsLoads(keep);
      LoadsAre(list, loads);
    }

    method RefreshTable(pass: Pass) returns (ok: bool)
      requires Valid()
      modifies table, table.readers, table.writers, table.routers
      ensures Valid() && ok == Answered(old(table.Contents()), pass, address).Some?
      ensures table.Contents() == if ok then Answered(old(table.Contents()), pass, address).value else old(table.Contents())
    {
      ok := UpdateTable(pass);
    }

    // ---------------------------------------------------------------- callers

    /** Hands out a connection to a server of the mode, chosen by load. */
    method Acquire(mode: AccessMode, passes: seq<Pass>, attempt: Attempt) returns (result: RoutingResult)
      requires Valid()
      modifies repr
      ensures Valid() && fresh(repr - old(repr))
      ensures var (t, refreshed) := AfterPasses(old(table.Contents()), mode, passes, address);
              table.Contents() == t &&
              (refreshed == StillStale <==> result == Unfinished) && (refreshed == Unreachable <==> result == NoTable)
      ensures held == if result.Handed? then old(held) + {result.handle} else old(held)
      ensures forall h :: h in old(held) ==> Undisturbed(h)
      ensures result.Handed? ==> HandedOut(mode, result.handle) && result.handle !in old(held)
      ensures AfterPasses(old(table.Contents()), mode, passes, address).1.Fresh? ==>
                FromServer(result, old(NextAfter(mode, passes)))
      ensures result != Unfinished && result != NoTable ==>
                table.routers.elements != [] &&
                (mode == ReadMode ==> table.readers.elements != []) &&
                (mode == WriteMode ==> table.writers.elements != []) &&
                exists i :: 0 <= i < |passes| && passes[i].now < table.expires
      ensures var list := if mode == ReadMode then table.readers.elements else table.writers.elements;
              var offset := 1 + old(if mode == ReadMode then readersOffset else writersOffset);
              (result.Handed? ==>
                var server := result.handle.pool.address;
                server in list && old(FewestInUse(server, list, offset))) &&
              (result == NoServers ==> old(AllBusy(list)))
      ensures passes != [] && old(Serves(table.Contents(), mode, passes[0].now)) ==>
                table.Contents() == old(table.Contents()) && result != Unfinished && result != NoTable
      ensures passes != [] && !old(Serves(table.Contents(), mode, passes[0].now)) ==>
                (table.Contents() == old(table.Contents()) && result == NoTable) ||
                TakenFromAnswer(table.Contents(), passes)
    {
      hide Serves, TakenFromAnswer, Pick, Loads, FewestInUse, AllBusy;
      if passes != [] {
        RefreshedExactlyWhen(table.Contents(), mode, passes, address);
      }
      ghost var list := ServersFor(AfterPasses(table.Contents(), mode, passes, address).0, mode);
      ghost var loads := Loads(list);
      assert NextAfter(mode, passes) == Pick(list, loads, NextOffset(mode));
      ChosenHasFewestInUse(list, NextOffset(mode));
      result := AcquireListed(mode, passes, attempt, list, loads);
    }

    method AcquireListed(mode: AccessMode, passes: seq<Pass>, attempt: Attempt, ghost list: seq<Address>,
                         ghost loads: seq<int>)
      returns (result: RoutingResult)
      requires Valid() && loads == Loads(list)
      requires list == ServersFor(AfterPasses(table.Contents(), mode, passes, address).0, mode)
      modifies repr
      ensures Valid() && fresh(repr - old(repr))
      ensures var (t, refreshed) := AfterPasses(old(table.Contents()), mode, passes, address);
              table.Contents() == t &&
              (refreshed == StillStale <==> result == Unfinished) && (refreshed == Unreachable <==> result == NoTable) &&
              (refreshed.Fresh? ==> FromServer(result, Pick(list, loads, old(NextOffset(mode)))))
      ensures held == if result.Handed? then old(held) + {result.handle} else old(held)
      ensures forall h :: h in old(held) ==> Undisturbed(h)
      ensures result.Handed? ==> HandedOut(mode, result.handle) && result.handle !in old(held)
    {
      hide AfterPasses, Pick, FromServer, Loads, ServersFor, TakenFromAnswer, AsMentioned;
      var refreshed := EnsureRoutingTable(mode, passes, list, loads);
      match refreshed
      case StillStale => return Unfinished;
      case Unreachable => return NoTable;
      case Fresh(_) =>
        result := AcquireFromTable(mode, attempt, list, loads);
    }

    method AcquireFromTable(mode: AccessMode, attempt: Attempt, ghost list: seq<Address>, ghost loads: seq<int>)
      returns (result: RoutingResult)
      requires Valid() && list == ServersFor(table.Contents(), mode) && loads == Loads(list)
      modifies this`readersOffset, this`writersOffset, this`serverPools, this`repr, this`held, servers, serverPools
      ensures Valid() && fresh(repr - old(repr))
      ensures held == if result.Handed? then old(held) + {result.handle} else old(held)
      ensures forall h :: h in old(held) ==> Undisturbed(h)
      ensures result.Handed? || result.Refused? || result == NoServers
      ensures result.Handed? ==> HandedOut(mode, result.handle) && result.handle !in old(held)
      ensures FromServer(result, Pick(list, loads, old(NextOffset(mode))))
    {
      hide Choice, Loads, FewestInUse, AllBusy, Tidy;
      var server := NextServer(mode);
      if server.None? {
        return NoServers;
      }
      result := AcquireFrom(server.value, attempt);
    }

    function NextOffset(mode: AccessMode): nat
      reads this`readersOffset, this`writersOffset
    {
      (if mode == ReadMode then readersOffset else writersOffset) + 1
    }

    /** The server that is next once the table has been refreshed. */
    function NextAfter(mode: AccessMode, passes: seq<Pass>): Option<Address>
      requires |serverPools| == |servers.elements|
      reads this`servers, this`serverPools, this`readersOffset, this`writersOffset, servers, serverPools
      reads table, table.readers, table.writers, table.routers
    {
      Chosen(ServersFor(AfterPasses(table.Contents(), mode, passes, address).0, mode), NextOffset(mode))
    }

    lemma LoadsAre(list: seq<Address>, loads: seq<int>)
      requires |serverPools| == |servers.elements| && |loads| == |list|
      requires forall i :: 0 <= i < |list| ==> loads[i] == Load(list[i])
      ensures Loads(list) == loads
    {
    }

    /** A connection as it is handed out. */
    ghost predicate HandedOut(mode: AccessMode, h: Handle)
      reads this, h.pool, table, table.readers, table.writers
    {
      h in held && h.index < |h.pool.entries| && h.pool.entries[h.index] == Entry(Ready, true) &&
      h.pool.address in if mode == ReadMode then table.readers.elements else table.writers.elements
    }

    /** Chooses a server for a mode, moving on where the next choice starts. */
    method NextServer(mode: AccessMode) returns (server: Option<Address>)
      requires |serverPools| == |servers.elements|
      modifies this`readersOffset, this`writersOffset
      ensures readersOffset == old(readersOffset) + if mode == ReadMode then 1 else 0
      ensures writersOffset == old(writersOffset) + if mode == WriteMode then 1 else 0
      ensures server == old(Chosen(ServersFor(table.Contents(), mode), NextOffset(mode)))
      ensures Paired() ==>
                var list := if mode == ReadMode then table.readers.elements else table.writers.elements;
                var offset := if mode == ReadMode then readersOffset else writersOffset;
                match server
                case Some(a) => a in list && FewestInUse(a, list, offset)
                case None => AllBusy(list)
    {
      hide Pick, Loads, FewestInUse, AllBusy;
      if mode == ReadMode {
        readersOffset := readersOffset + 1;
        server := SelectLeastConnected(table.readers, readersOffset);
      } else {
        writersOffset := writersOffset + 1;
        server := SelectLeastConnected(table.writers, writersOffset);
      }
    }

    method AcquireFrom(server: Address, attempt: Attempt) returns (result: RoutingResult)
      requires Valid()
      modifies this`serverPools, this`repr, this`held, servers, serverPools
      ensures Valid() && fresh(repr - old(repr))
      ensures held == if result.Handed? then old(held) + {result.handle} else old(held)
      ensures forall h :: h in old(held) ==> Undisturbed(h)
      ensures result.Handed? || result.Refused?
      ensures result.Handed? ==>
                var h := result.handle;
                h !in old(held) && h.pool in serverPools && h.pool.address == server && h.index < |h.pool.entries| &&
                h.pool.entries[h.index] == Entry(Ready, true)
    {
      var index := EnsureServer(server, true);
      result := AcquireAt(index, attempt);
    }

    method AcquireAt(index: nat, attempt: Attempt) returns (result: RoutingResult)
      requires Valid() && index < |serverPools|
      modifies this`held, serverPools[index]
      ensures Valid()
      ensures held == if result.Handed? then old(held) + {result.handle} else old(held)
      ensures forall h :: h in old(held) ==> Undisturbed(h)
      ensures result.Handed? || result.Refused?
      ensures result.Handed? ==>
                var h := result.handle;
                h !in old(held) && h.pool == serverPools[index] && h.index < |h.pool.entries| &&
                h.pool.entries[h.index] == Entry(Ready, true)
    {
      var pool := serverPools[index];
      var outcome := pool.Lend(attempt);
      if outcome.Took? {
        result := Handed(Handle(pool, outcome.index));
        held := held + {result.handle};
      } else {
        result := Refused(outcome);
      }
      StaysValid(index);
    }

    /** What one pool does keeps everything in order, if holders are told. */
    twostate lemma StaysValid(index: nat)
      requires old(Valid()) && repr == old(repr) && servers == old(servers) && serverPools == old(serverPools)
      requires unchanged(servers) && unchanged(table) && unchanged(table.readers) && unchanged(table.writers)
      requires unchanged(table.routers) && index < |serverPools| && serverPools[index].Valid()
      requires forall p :: p in serverPools && p != serverPools[index] ==> unchanged(p)
      requires forall h :: h in held && h.pool != serverPools[index] ==> h in old(held)
      requires forall h :: h in old(held) && h.pool != serverPools[index] ==> h in held
      requires forall i :: i in serverPools[index].held ==> Handle(serverPools[index], i) in held
      requires forall h :: h in held && h.pool == serverPools[index] ==> h.index in serverPools[index].held
      ensures Valid()
    {
      assert old(Paired());
      forall i | 0 <= i < |serverPools|
        ensures serverPools[i].Valid()
      {
        if serverPools[i] != serverPools[index] {
          var pool := serverPools[i];
          assert old(pool.Valid()) && pool in serverPools;
          assert pool.Model() == old(pool.Model()) && pool.held == old(pool.held);
        }
      }
    }

    /** Gives a held connection back to the pool and entry it came from. A connection whose
        pool is gone would be closed instead; a held one always has its pool. */
    method Release(h: Handle, reset: ResetOutcome) returns (index: int)
      requires Valid() && h in held
      modifies this`held, h.pool
      ensures Valid() && held == old(held) - {h}
      ensures index == h.index && h.pool in serverPools && h.pool.inUse == old(h.pool.inUse) - 1
      ensures var state := if reset == ResetSucceeded then Ready else Disconnected;
              h.pool.entries == old(h.pool.entries)[index := Entry(state, false)]
      ensures forall g :: g in held ==> Undisturbed(g)
    {
      var place := servers.IndexOf(h.pool.address);
      PoolIsFound(h.pool);
      index := ReleaseAt(place, h, reset);
    }

    method ReleaseAt(place: nat, h: Handle, reset: ResetOutcome) returns (index: int)
      requires Valid() && h in held && place < |serverPools| && serverPools[place] == h.pool
      modifies this`held, h.pool
      ensures Valid() && held == old(held) - {h}
      ensures index == h.index && h.pool.inUse == old(h.pool.inUse) - 1
      ensures var state := if reset == ResetSucceeded then Ready else Disconnected;
              h.pool.entries == old(h.pool.entries)[index := Entry(state, false)]
      ensures forall g :: g in held ==> Undisturbed(g)
    {
      index := serverPools[place].Release(h, reset);
      held := held - {h};
      StaysValid(place);
    }

    lemma PoolIsFound(pool: DirectPool)
      requires Valid() && pool in serverPools
      ensures var i := Index(servers.elements, pool.address); i >= 0 && serverPools[i] == pool
    {
    }

    /** What a holder does with its connection leaves everything else alone. */
    method Use(h: Handle, state: ConnectionState)
      requires Valid() && h in held && state != Disconnected
      modifies h.pool
      ensures Valid() && h.pool.entries == old(h.pool.entries)[h.index := Entry(state, true)]
      ensures forall g :: g in held && g != h ==> Undisturbed(g)
    {
      h.pool.UseConnection(h, state);
    }

    method ForgetServer(server: Address)
      requires Valid()
      modifies table.readers, table.writers, table.routers
      ensures Valid()
      ensures table.Contents() == old(table.Contents()).(
                readers := Removed(old(table.readers.elements), server),
                writers := Removed(old(table.writers.elements), server),
                routers := Removed(old(table.routers.elements), server))
    {
      table.ForgetServer(server);
    }

    method ForgetWriter(server: Address)
      requires Valid()
      modifies table.writers
      ensures Valid()
      ensures table.Contents() == old(table.Contents()).(writers := Removed(old(table.writers.elements), server))
    {
      table.ForgetWriter(server);
    }

    /** Keeping the pools of held connections keeps all there is to know about them. */
    lemma KeptPoolsArePaired(keep: seq<bool>)
      requires Valid() && |keep| == |serverPools|
      requires forall i :: 0 <= i < |keep| && !keep[i] ==> serverPools[i].held == {}
      ensures var s, t := Kept(servers.elements, keep), Kept(serverPools, keep);
              Distinct(s) && |s| == |t| && (forall k :: 0 <= k < |t| ==> t[k] in serverPools && t[k].address == s[k]) &&
              forall h :: h in held ==> h.pool in t
    {
      KeptIsDistinct(servers.elements, keep);
      KeptStayPaired(servers.elements, serverPools, keep);
      forall h | h in held
        ensures h.pool in Kept(serverPools, keep)
      {
        KeptExactlyWhen(serverPools, keep, h.pool);
      }
    }
  }

  /** Every connection of this pool is closed. */
  ghost predicate Closed(pool: DirectPool)
    reads pool
  {
    forall i :: 0 <= i < |pool.entries| ==> pool.entries[i].state == Disconnected
  }

  /** Destroys the pools that are not kept. */
  method DestroyOthers(pools: seq<DirectPool>, keep: seq<bool>)
    requires |pools| == |keep| && forall i, j :: 0 <= i < j < |pools| ==> pools[i] != pools[j]
    requires forall i :: 0 <= i < |pools| && !keep[i] ==> pools[i].Valid() && pools[i].held == {}
    modifies set i | 0 <= i < |pools| && !keep[i] :: pools[i]
    ensures forall i :: 0 <= i < |pools| && !keep[i] ==> Closed(pools[i])
  {
    for i := 0 to |pools|
      invariant forall k :: i <= k < |pools| && !keep[k] ==> pools[k].Valid() && pools[k].held == {}
      invariant forall k :: 0 <= k < i && !keep[k] ==> Closed(pools[k])
    {
      if !keep[i] {
        pools[i].Destroy();
      }
    }
  }
}
