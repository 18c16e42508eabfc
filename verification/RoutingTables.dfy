/** The routing table: which servers read, write and route, and until when. */
module RoutingTables {
  import opened Bytes
  import opened Values
  import opened Storage
  import opened AddressSets

  const READ_ROLE: Octets := [0x52, 0x45, 0x41, 0x44]
  const WRITE_ROLE: Octets := [0x57, 0x52, 0x49, 0x54, 0x45]
  const ROUTE_ROLE: Octets := [0x52, 0x4F, 0x55, 0x54, 0x45]
  const TTL_KEY: Octets := [0x74, 0x74, 0x6C]
  const SERVERS_KEY: Octets := [0x73, 0x65, 0x72, 0x76, 0x65, 0x72, 0x73]
  const ROLE_KEY: Octets := [0x72, 0x6F, 0x6C, 0x65]
  const ADDRESSES_KEY: Octets := [0x61, 0x64, 0x64, 0x72, 0x65, 0x73, 0x73, 0x65, 0x73]
  const COLON: Byte := 0x3A

  /** Whether a dictionary key is this text. Only sizes and bytes are compared, so bytes match
      as well as a string. */
  predicate IsKey(v: Value, key: Octets)
  {
    v == String(key) || v == Value.Bytes(key)
  }

  /** The value of the first entry with this key. */
  function Lookup(pairs: seq<Value>, key: Octets): Option<Value>
  {
    if |pairs| < 2 then None
    else if IsKey(pairs[0], key) then Some(pairs[1])
    else Lookup(pairs[2..], key)
  }

  /** Entry i is the first one with this key. */
  predicate FirstEntry(pairs: seq<Value>, key: Octets, i: int)
  {
    0 <= i && 2 * i + 1 < |pairs| && IsKey(pairs[2 * i], key) && forall k :: 0 <= k < i ==> !IsKey(pairs[2 * k], key)
  }

  lemma {:induction false} LookupFindsFirstEntry(pairs: seq<Value>, key: Octets)
    ensures match Lookup(pairs, key)
      case Some(v) => exists i :: FirstEntry(pairs, key, i) && pairs[2 * i + 1] == v
      case None => forall i :: 0 <= i && 2 * i + 1 < |pairs| ==> !IsKey(pairs[2 * i], key)
  {
    if |pairs| >= 2 {
      if IsKey(pairs[0], key) {
        assert FirstEntry(pairs, key, 0);
      } else {
        var others := pairs[2..];
        LookupFindsFirstEntry(others, key);
        assert forall i :: 0 <= i && 2 * i + 1 < |others| ==> others[2 * i] == pairs[2 * (i + 1)];
        if Lookup(pairs, key).Some? {
          var i :| FirstEntry(others, key, i) && others[2 * i + 1] == Lookup(pairs, key).value;
          assert forall k :: 0 < k < i + 1 ==> pairs[2 * k] == others[2 * (k - 1)];
          assert FirstEntry(pairs, key, i + 1);
        } else {
          assert forall i :: 0 < i && 2 * i + 1 < |pairs| ==> pairs[2 * i] == others[2 * (i - 1)];
        }
      }
    }
  }

  // ---------------------------------------------------------------- addresses in text

  /** Text as C sees it: up to the first zero byte. */
  function CString(text: Octets): (s: Octets)
    ensures |s| <= |text| && s == text[..|s|] && 0 !in s
    ensures |s| < |text| ==> text[|s|] == 0
  {
    if text == [] || text[0] == 0 then [] else [text[0]] + CString(text[1..])
  }

  /** The position of the last colon, or -1. */
  function LastColon(s: Octets): (i: int)
    ensures -1 <= i < |s|
    ensures i >= 0 ==> s[i] == COLON
    ensures forall k :: i < k < |s| ==> s[k] != COLON
  {
    if s == [] then -1
    else if s[|s| - 1] == COLON then |s| - 1
    else LastColon(s[..|s| - 1])
  }

  function ParseAddress(text: Octets): Address
  {
    var s := CString(text);
    var i := LastColon(s);
    if i < 0 then CreateAddress(s, []) else CreateAddress(s[..i], s[i + 1..])
  }

  /** An address written as host, colon and port is read back, even when the host has
      colons of its own, as long as the port has none and neither has zero bytes. */
  lemma ParsesWhatItIsWrittenAs(a: Address)
    requires 0 !in a.host && 0 !in a.port && COLON !in a.port
    ensures ParseAddress(a.host + [COLON] + a.port) == a
  {
    var text := a.host + [COLON] + a.port;
    var s := CString(text);
    assert forall k :: 0 <= k < |text| ==> text[k] in a.host || text[k] == COLON || text[k] in a.port;
    assert s == text;
    var i := LastColon(s);
    assert text[|a.host|] == COLON;
    assert forall k :: |a.host| < k < |text| ==> text[k] in a.port;
    assert i == |a.host| && s[..i] == a.host && s[i + 1..] == a.port;
  }

  /** Text without a colon is a host with the default port, 7687. */
  lemma ParsesHostAlone(host: Octets)
    requires host != [] && 0 !in host && COLON !in host
    ensures ParseAddress(host) == AddressFields(host, [0x37, 0x36, 0x38, 0x37])
  {
    assert forall k :: 0 <= k < |host| ==> host[k] in host;
    assert CString(host) == host;
    assert LastColon(host) == -1;
  }

  // ---------------------------------------------------------------- the discovery response

  /** What one entry of the servers list must be. The role is looked at only when an
      address is reached. */
  predicate WellFormedServer(v: Value)
  {
    v.Dictionary? &&
    var role, addresses := Lookup(v.pairs, ROLE_KEY), Lookup(v.pairs, ADDRESSES_KEY);
    role.Some? && role.value.String? && addresses.Some? && addresses.value.List? &&
    forall i :: 0 <= i < |addresses.value.items| ==>
      addresses.value.items[i].String? && CString(role.value.text) in {READ_ROLE, WRITE_ROLE, ROUTE_ROLE}
  }

  function Addresses(items: seq<Value>): (r: seq<Address>)
    requires forall i :: 0 <= i < |items| ==> items[i].String?
    ensures |r| == |items| && forall i :: 0 <= i < |items| ==> r[i] == ParseAddress(items[i].text)
  {
    if items == [] then [] else Addresses(items[..|items| - 1]) + [ParseAddress(items[|items| - 1].text)]
  }

  /** The addresses listed for a role, entry after entry. */
  function Listed(servers: seq<Value>, role: Octets): seq<Address>
    requires forall i :: 0 <= i < |servers| ==> WellFormedServer(servers[i])
  {
    if servers == [] then []
    else Listed(servers[..|servers| - 1], role) + ListedIn(servers[|servers| - 1], role)
  }

  function ListedIn(server: Value, role: Octets): seq<Address>
    requires WellFormedServer(server)
  {
    if CString(Lookup(server.pairs, ROLE_KEY).value.text) == role
    then Addresses(Lookup(server.pairs, ADDRESSES_KEY).value.items)
    else []
  }

  /** A server is listed for a role exactly when some entry of that role names it. */
  lemma {:induction false} ListedExactlyWhen(servers: seq<Value>, role: Octets, a: Address)
    requires AllWellFormed(servers)
    ensures a in Listed(servers, role) <==> exists i :: 0 <= i < |servers| && Names(servers[i], role, a)
  {
    if servers != [] {
      var init, last := servers[..|servers| - 1], servers[|servers| - 1];
      ListedExactlyWhen(init, role, a);
      NamedIn(last, role, a);
      ListedEarlier(servers, role, a);
    }
  }

  lemma ListedEarlier(servers: seq<Value>, role: Octets, a: Address)
    requires AllWellFormed(servers) && servers != []
    ensures var init, last := servers[..|servers| - 1], servers[|servers| - 1];
            AllWellFormed(init) && WellFormedServer(last) &&
            (a in Listed(servers, role) <==> a in Listed(init, role) || a in ListedIn(last, role)) &&
            ((exists i :: 0 <= i < |servers| && Names(servers[i], role, a)) <==>
             (exists i :: 0 <= i < |init| && Names(init[i], role, a)) || Names(last, role, a))
  {
    hide Names, ListedIn, WellFormedServer;
    var init, last := servers[..|servers| - 1], servers[|servers| - 1];
    assert forall i :: 0 <= i < |servers| ==> servers[i] == if i < |init| then init[i] else last;
  }

  predicate Names(server: Value, role: Octets, a: Address)
    requires WellFormedServer(server)
  {
    var items := Lookup(server.pairs, ADDRESSES_KEY).value.items;
    CString(Lookup(server.pairs, ROLE_KEY).value.text) == role &&
    exists j :: 0 <= j < |items| && ParseAddress(items[j].text) == a
  }

  lemma NamedIn(server: Value, role: Octets, a: Address)
    requires WellFormedServer(server)
    ensures a in ListedIn(server, role) <==> Names(server, role, a)
  {
    var items := Lookup(server.pairs, ADDRESSES_KEY).value.items;
    assert a in Addresses(items) <==> exists j :: 0 <= j < |items| && Addresses(items)[j] == a;
  }

  predicate AllWellFormed(servers: seq<Value>)
  {
    forall i :: 0 <= i < |servers| ==> WellFormedServer(servers[i])
  }

  // ---------------------------------------------------------------- what the response says

  /** Address j of entry i of the servers list is this one, under this role. The keys are role
      and addresses. */
  predicate Mentions(servers: seq<Value>, role: Octets, a: Address, i: int, j: int)
  {
    0 <= i < |servers| && servers[i].Dictionary? &&
    var r := Lookup(servers[i].pairs, [0x72, 0x6F, 0x6C, 0x65]);
    var l := Lookup(servers[i].pairs, [0x61, 0x64, 0x64, 0x72, 0x65, 0x73, 0x73, 0x65, 0x73]);
    r.Some? && r.value.String? && CString(r.value.text) == role && l.Some? && l.value.List? &&
    0 <= j < |l.value.items| && l.value.items[j].String? && ParseAddress(l.value.items[j].text) == a
  }

  /** The one address is mentioned before the other is for the first time. */
  ghost predicate EarlierMention(servers: seq<Value>, role: Octets, a: Address, b: Address)
  {
    exists i, j :: Mentions(servers, role, a, i, j) &&
                   NoneUpTo(servers, role, b, i, j)
  }

  /** Just the addresses mentioned under the role, each once, in the order of first mention. */
  ghost predicate HoldsMentioned(s: seq<Address>, servers: seq<Value>, role: Octets)
  {
    Distinct(s) && (forall a :: a in s <==> exists i, j :: Mentions(servers, role, a, i, j)) &&
    forall k, l :: 0 <= k < l < |s| ==> EarlierMention(servers, role, s[k], s[l])
  }

  lemma {:induction false} ListedIsMentioned(servers: seq<Value>, role: Octets, a: Address)
    requires AllWellFormed(servers)
    ensures a in Listed(servers, role) <==> exists i, j :: Mentions(servers, role, a, i, j)
  {
    ListedExactlyWhen(servers, role, a);
    if a in Listed(servers, role) {
      var i :| 0 <= i < |servers| && Names(servers[i], role, a);
      var items := Lookup(servers[i].pairs, ADDRESSES_KEY).value.items;
      var j :| 0 <= j < |items| && ParseAddress(items[j].text) == a;
      assert Mentions(servers, role, a, i, j);
    }
    if exists i, j :: Mentions(servers, role, a, i, j) {
      var i, j :| Mentions(servers, role, a, i, j);
      assert Names(servers[i], role, a);
    }
  }

  /** A mention in the last entry or in one before it. */
  lemma MentionsSplit(servers: seq<Value>, role: Octets, a: Address, k: int, l: int)
    requires AllWellFormed(servers) && servers != []
    ensures var n := |servers| - 1;
            Mentions(servers, role, a, k, l) <==>
            Mentions(servers[..n], role, a, k, l) ||
            (k == n && 0 <= l < |ListedIn(servers[n], role)| && ListedIn(servers[n], role)[l] == a)
  {
  }

  lemma NotBeforeIndex(s: seq<Address>, a: Address, l: nat)
    requires l < |s| && s[l] == a
    ensures 0 <= Index(s, a) <= l
  {
    assert forall i: nat :: i < Index(s, a) ==> s[i] in s[..Index(s, a)];
  }

  lemma {:induction false} ListedInOrder(servers: seq<Value>, role: Octets, a: Address, b: Address)
    returns (i: int, j: int)
    requires AllWellFormed(servers) && a in Listed(servers, role) && b in Listed(servers, role)
    requires Index(Listed(servers, role), a) < Index(Listed(servers, role), b)
    ensures Mentions(servers, role, a, i, j) && NoneUpTo(servers, role, b, i, j)
    decreases |servers|
  {
    var n := |servers| - 1;
    var init := servers[..n];
    var before, here := Listed(init, role), ListedIn(servers[n], role);
    IndexInConcat(before, here, a);
    IndexInConcat(before, here, b);
    assert Listed(servers, role) == before + here;
    hide Mentions, Listed, ListedIn, Index, WellFormedServer, NoneUpTo;
    i, j := n, Index(here, a);
    if a in before && b in before {
      i, j := ListedInOrder(init, role, a, b);
      LaterEntry(servers, role, b, i, j);
    } else {
      if a in before {
        ListedIsMentioned(init, role, a);
        i, j :| Mentions(init, role, a, i, j);
      }
      OnlyInLast(servers, role, b, i, j);
    }
    if a in before {
      MentionsBound(init, role, a, i, j);
    }
    MentionsSplit(servers, role, a, i, j);
  }

  /** The address is mentioned nowhere up to this place. */
  ghost predicate NoneUpTo(servers: seq<Value>, role: Octets, b: Address, i: int, j: int)
  {
    forall k, l :: Mentions(servers, role, b, k, l) ==> i < k || (i == k && j < l)
  }

  lemma LaterEntry(servers: seq<Value>, role: Octets, b: Address, i: int, j: int)
    requires AllWellFormed(servers) && servers != []
    requires NoneUpTo(servers[..|servers| - 1], role, b, i, j) && i < |servers| - 1
    ensures NoneUpTo(servers, role, b, i, j)
  {
    forall k, l | Mentions(servers, role, b, k, l)
      ensures i < k || (i == k && j < l)
    {
      MentionsSplit(servers, role, b, k, l);
    }
  }

  lemma OnlyInLast(servers: seq<Value>, role: Octets, b: Address, i: int, j: int)
    requires AllWellFormed(servers) && servers != []
    requires var n := |servers| - 1;
             b !in Listed(servers[..n], role) && (i < n || (i == n && j < Index(ListedIn(servers[n], role), b)))
    ensures NoneUpTo(servers, role, b, i, j)
  {
    var n := |servers| - 1;
    ListedIsMentioned(servers[..n], role, b);
    forall k, l | Mentions(servers, role, b, k, l)
      ensures i < k || (i == k && j < l)
    {
      MentionsSplit(servers, role, b, k, l);
      NotBeforeIndex(ListedIn(servers[n], role), b, l);
    }
  }

  lemma MentionsBound(servers: seq<Value>, role: Octets, a: Address, i: int, j: int)
    requires Mentions(servers, role, a, i, j)
    ensures 0 <= i < |servers| && 0 <= j
  {
  }

  /** The first occurrences of what is listed for a role are just what the response mentions. */
  lemma RoleHoldsMentioned(servers: seq<Value>, role: Octets)
    requires AllWellFormed(servers)
    ensures HoldsMentioned(FirstSeen(Listed(servers, role)), servers, role)
  {
    var listed := Listed(servers, role);
    FirstSeenKeepsOrder(listed);
    forall a
      ensures a in FirstSeen(listed) <==> exists i, j :: Mentions(servers, role, a, i, j)
    {
      ListedIsMentioned(servers, role, a);
    }
    forall k, l | 0 <= k < l < |FirstSeen(listed)|
      ensures EarlierMention(servers, role, FirstSeen(listed)[k], FirstSeen(listed)[l])
    {
      var i, j := ListedInOrder(servers, role, FirstSeen(listed)[k], FirstSeen(listed)[l]);
    }
  }

  /** The table of a response: readers are those of role READ, writers of role WRITE, routers
      of role ROUTE, and it expires as many seconds after it was taken over as its ttl says. */
  ghost predicate AsMentioned(t: Table, pairs: seq<Value>, now: int)
  {
    var ttl := Lookup(pairs, [0x74, 0x74, 0x6C]);
    var servers := Lookup(pairs, [0x73, 0x65, 0x72, 0x76, 0x65, 0x72, 0x73]);
    ttl.Some? && ttl.value.Integer? && servers.Some? && servers.value.List? &&
    HoldsMentioned(t.readers, servers.value.items, [0x52, 0x45, 0x41, 0x44]) &&
    HoldsMentioned(t.writers, servers.value.items, [0x57, 0x52, 0x49, 0x54, 0x45]) &&
    HoldsMentioned(t.routers, servers.value.items, [0x52, 0x4F, 0x55, 0x54, 0x45]) &&
    t.lastUpdated == now && t.expires == now + 1000 * ttl.value.number
  }

  lemma TableIsAsMentioned(pairs: seq<Value>, now: int)
    requires Complete(pairs) && WellFormed(pairs)
    ensures AsMentioned(TableOf(pairs, now), pairs, now)
  {
    var servers := Lookup(pairs, SERVERS_KEY).value.items;
    RoleHoldsMentioned(servers, [0x52, 0x45, 0x41, 0x44]);
    RoleHoldsMentioned(servers, [0x57, 0x52, 0x49, 0x54, 0x45]);
    RoleHoldsMentioned(servers, [0x52, 0x4F, 0x55, 0x54, 0x45]);
  }

  /** An entry that is refused, and with it the whole response: one that is no dictionary, has
      no role that is a string, no list of addresses, an address that is no string, or addresses
      but none of the three roles. */
  ghost predicate Refused(v: Value)
  {
    !v.Dictionary? ||
    var r := Lookup(v.pairs, [0x72, 0x6F, 0x6C, 0x65]);
    var l := Lookup(v.pairs, [0x61, 0x64, 0x64, 0x72, 0x65, 0x73, 0x73, 0x65, 0x73]);
    r.None? || !r.value.String? || l.None? || !l.value.List? ||
    (exists j :: 0 <= j < |l.value.items| && !l.value.items[j].String?) ||
    (l.value.items != [] &&
     CString(r.value.text) !in
       {[0x52, 0x45, 0x41, 0x44], [0x57, 0x52, 0x49, 0x54, 0x45], [0x52, 0x4F, 0x55, 0x54, 0x45]})
  }

  lemma RefusedServer(v: Value)
    ensures !WellFormedServer(v) <==> Refused(v)
  {
    if v.Dictionary? && Lookup(v.pairs, ADDRESSES_KEY).Some? && Lookup(v.pairs, ADDRESSES_KEY).value.List? {
      var items := Lookup(v.pairs, ADDRESSES_KEY).value.items;
      assert items != [] ==> items[0] == items[0];
    }
  }

  /** A response has an integer ttl and a list of servers of whatever type. */
  predicate Complete(pairs: seq<Value>)
  {
    Lookup(pairs, TTL_KEY).Some? && Lookup(pairs, TTL_KEY).value.Integer? && Lookup(pairs, SERVERS_KEY).Some?
  }

  predicate WellFormed(pairs: seq<Value>)
    requires Complete(pairs)
  {
    var servers := Lookup(pairs, SERVERS_KEY).value;
    servers.List? && AllWellFormed(servers.items)
  }

  datatype Table = Table(readers: seq<Address>, writers: seq<Address>, routers: seq<Address>,
                         lastUpdated: int, expires: int)

  /** The table a response stands for. */
  function TableOf(pairs: seq<Value>, now: int): Table
    requires Complete(pairs) && WellFormed(pairs)
  {
    var servers := Lookup(pairs, SERVERS_KEY).value.items;
    Table(FirstSeen(Listed(servers, READ_ROLE)), FirstSeen(Listed(servers, WRITE_ROLE)),
          FirstSeen(Listed(servers, ROUTE_ROLE)), now, now + 1000 * Lookup(pairs, TTL_KEY).value.number)
  }

  datatype AccessMode = ReadMode | WriteMode

  /** A table serves an access mode while it is young and has a router and a server for it. */
  predicate Expired(t: Table, mode: AccessMode, now: int)
  {
    |t.routers| == 0 || (if mode == ReadMode then |t.readers| == 0 else |t.writers| == 0) || t.expires <= now
  }

  class RoutingTable {
    const readers: AddressSet
    const writers: AddressSet
    const routers: AddressSet
    var lastUpdated: int
    var expires: int

    ghost predicate Valid()
      reads this, readers, writers, routers
    {
      readers != writers && readers != routers && writers != routers &&
      Distinct(readers.elements) && Distinct(writers.elements) && Distinct(routers.elements)
    }

    constructor ()
      ensures Valid() && fresh(readers) && fresh(writers) && fresh(routers)
      ensures readers.elements == [] && writers.elements == [] && routers.elements == []
      ensures lastUpdated == 0 && expires == 0
    {
      expires := 0;
      lastUpdated := 0;
      readers := new AddressSet();
      writers := new AddressSet();
      routers := new AddressSet();
    }

    function Contents(): Table
      reads this, readers, writers, routers
    {
      Table(readers.elements, writers.elements, routers.elements, lastUpdated, expires)
    }

    /** Takes over a discovery response, all of it or nothing. */
    method Update(pairs: seq<Value>, now: int) returns (ok: bool)
      requires Valid() && Complete(pairs)
      modifies this, readers, writers, routers
      ensures Valid() && ok == WellFormed(pairs)
      ensures Contents() == if ok then TableOf(pairs, now) else old(Contents())
      ensures ok ==> AsMentioned(Contents(), pairs, now)
      ensures var servers := Lookup(pairs, [0x73, 0x65, 0x72, 0x76, 0x65, 0x72, 0x73]).value;
              ok <==> servers.List? && forall i :: 0 <= i < |servers.items| ==> !Refused(servers.items[i])
    {
      hide AsMentioned, Refused;
      forall v: Value
        ensures !WellFormedServer(v) <==> Refused(v)
      {
        RefusedServer(v);
      }
      var ttl := Lookup(pairs, TTL_KEY).value.number * 1000;
      var servers := Lookup(pairs, SERVERS_KEY).value;
      if !servers.List? {
        return false;
      }
      var newReaders := new AddressSet();
      var newWriters := new AddressSet();
      var newRouters := new AddressSet();
      ok := Collect(servers.items, newReaders, newWriters, newRouters);
      if ok {
        SetsOf(servers.items);
        readers.Replace(newReaders);
        writers.Replace(newWriters);
        routers.Replace(newRouters);
        lastUpdated := now;
        expires := lastUpdated + ttl;
        TableIsAsMentioned(pairs, now);
      }
    }

    predicate IsExpired(mode: AccessMode, now: int)
      reads this, readers, writers, routers
    {
      Expired(Contents(), mode, now)
    }

    method ForgetServer(a: Address)
      requires Valid()
      modifies readers, writers, routers
      ensures Valid()
      ensures readers.elements == Removed(old(readers.elements), a)
      ensures writers.elements == Removed(old(writers.elements), a)
      ensures routers.elements == Removed(old(routers.elements), a)
    {
      RemovedIsDifference(routers.elements, a);
      RemovedIsDifference(readers.elements, a);
      RemovedIsDifference(writers.elements, a);
      var _ := routers.Remove(a);
      var _ := readers.Remove(a);
      var _ := writers.Remove(a);
    }

    method ForgetWriter(a: Address)
      requires Valid()
      modifies writers
      ensures Valid() && writers.elements == Removed(old(writers.elements), a)
    {
      RemovedIsDifference(writers.elements, a);
      var _ := writers.Remove(a);
    }
  }

  lemma SetsOf(servers: seq<Value>)
    requires AllWellFormed(servers)
    ensures Distinct(FirstSeen(Listed(servers, READ_ROLE))) && Distinct(FirstSeen(Listed(servers, WRITE_ROLE)))
    ensures Distinct(FirstSeen(Listed(servers, ROUTE_ROLE)))
  {
    AddedAllIsUnion([], Listed(servers, READ_ROLE));
    AddedAllIsUnion([], Listed(servers, WRITE_ROLE));
    AddedAllIsUnion([], Listed(servers, ROUTE_ROLE));
  }

  /** Goes through the servers list, filling one set for each role. */
  method Collect(servers: seq<Value>, readers: AddressSet, writers: AddressSet, routers: AddressSet)
    returns (ok: bool)
    requires readers != writers && readers != routers && writers != routers
    requires readers.elements == [] && writers.elements == [] && routers.elements == []
    modifies readers, writers, routers
    ensures ok == AllWellFormed(servers)
    ensures ok ==> readers.elements == FirstSeen(Listed(servers, READ_ROLE)) &&
                   writers.elements == FirstSeen(Listed(servers, WRITE_ROLE)) &&
                   routers.elements == FirstSeen(Listed(servers, ROUTE_ROLE))
  {
    for i := 0 to |servers|
      invariant AllWellFormed(servers[..i])
      invariant readers.elements == FirstSeen(Listed(servers[..i], READ_ROLE))
      invariant writers.elements == FirstSeen(Listed(servers[..i], WRITE_ROLE))
      invariant routers.elements == FirstSeen(Listed(servers[..i], ROUTE_ROLE))
    {
      ok := CollectServer(servers[i], readers, writers, routers);
      if !ok {
        return;
      }
      ListedNext(servers, i, READ_ROLE);
      ListedNext(servers, i, WRITE_ROLE);
      ListedNext(servers, i, ROUTE_ROLE);
    }
    assert servers[..|servers|] == servers;
    return true;
  }

  lemma ListedNext(servers: seq<Value>, i: nat, role: Octets)
    requires i < |servers| && AllWellFormed(servers[..i]) && WellFormedServer(servers[i])
    ensures AllWellFormed(servers[..i + 1])
    ensures FirstSeen(Listed(servers[..i + 1], role)) ==
            AddedAll(FirstSeen(Listed(servers[..i], role)), ListedIn(servers[i], role))
  {
    hide FirstSeen, AddedAll, ListedIn, WellFormedServer;
    assert servers[..i + 1][..i] == servers[..i] && servers[..i + 1][i] == servers[i];
    FirstSeenConcat(Listed(servers[..i], role), ListedIn(servers[i], role));
  }

  method CollectServer(server: Value, readers: AddressSet, writers: AddressSet, routers: AddressSet)
    returns (ok: bool)
    requires readers != writers && readers != routers && writers != routers
    modifies readers, writers, routers
    ensures ok == WellFormedServer(server)
    ensures ok ==> readers.elements == AddedAll(old(readers.elements), ListedIn(server, READ_ROLE)) &&
                   writers.elements == AddedAll(old(writers.elements), ListedIn(server, WRITE_ROLE)) &&
                   routers.elements == AddedAll(old(routers.elements), ListedIn(server, ROUTE_ROLE))
  {
    if !server.Dictionary? {
      return false;
    }
    var roleValue := Lookup(server.pairs, ROLE_KEY);
    if roleValue.None? || !roleValue.value.String? {
      return false;
    }
    var addresses := Lookup(server.pairs, ADDRESSES_KEY);
    if addresses.None? || !addresses.value.List? {
      return false;
    }
    var role, items := CString(roleValue.value.text), addresses.value.items;
    RolesDiffer();
    if role == READ_ROLE {
      ok := CollectAddresses(items, readers);
    } else if role == WRITE_ROLE {
      ok := CollectAddresses(items, writers);
    } else if role == ROUTE_ROLE {
      ok := CollectAddresses(items, routers);
    } else {
      ok := items == [];
    }
  }

  lemma RolesDiffer()
    ensures READ_ROLE != WRITE_ROLE && READ_ROLE != ROUTE_ROLE && WRITE_ROLE != ROUTE_ROLE
  {
    assert READ_ROLE[0] == 0x52 && WRITE_ROLE[0] == 0x57 && ROUTE_ROLE[1] == 0x4F && READ_ROLE[1] == 0x45;
  }

  lemma AddressesNext(s: seq<Address>, items: seq<Value>, j: nat)
    requires j < |items| && forall i :: 0 <= i <= j ==> items[i].String?
    ensures AddedAll(s, Addresses(items[..j + 1])) ==
            Added(AddedAll(s, Addresses(items[..j])), ParseAddress(items[j].text))
  {
    assert items[..j + 1][..j] == items[..j];
    AddedAllConcat(s, Addresses(items[..j]), [ParseAddress(items[j].text)]);
    assert [ParseAddress(items[j].text)][1..] == [];
  }

  /** Adds the listed addresses to a set until one is not a string. */
  method CollectAddresses(items: seq<Value>, target: AddressSet) returns (ok: bool)
    modifies target
    ensures ok == forall i :: 0 <= i < |items| ==> items[i].String?
    ensures ok ==> target.elements == AddedAll(old(target.elements), Addresses(items))
  {
    for j := 0 to |items|
      invariant forall i :: 0 <= i < j ==> items[i].String?
      invariant target.elements == AddedAll(old(target.elements), Addresses(items[..j]))
    {
      if !items[j].String? {
        return false;
      }
      AddressesNext(old(target.elements), items, j);
      var _ := target.Add(ParseAddress(items[j].text));
    }
    assert items[..|items|] == items;
    return true;
  }
}
