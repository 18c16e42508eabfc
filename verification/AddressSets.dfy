/** Server addresses and duplicate-free lists of them. */
module AddressSets {
  import opened Bytes

  datatype AddressFields = AddressFields(host: Octets, port: Octets)

  const DEFAULT_HOST: Octets := [0x6C, 0x6F, 0x63, 0x61, 0x6C, 0x68, 0x6F, 0x73, 0x74]
  const DEFAULT_PORT: Octets := [0x37, 0x36, 0x38, 0x37]

  /** An address as BoltAddress_create makes it: neither part is empty. */
  type Address = a: AddressFields | a.host != [] && a.port != [] witness AddressFields([0x61], [0x31])

  function CreateAddress(host: Octets, port: Octets): (a: Address)
    ensures host != [] ==> a.host == host
    ensures port != [] ==> a.port == port
  {
    AddressFields(if host == [] then DEFAULT_HOST else host, if port == [] then DEFAULT_PORT else port)
  }

  /** The first position of an address, or -1. */
  function Index(s: seq<Address>, a: Address): (i: int)
    ensures -1 <= i < |s|
    ensures i >= 0 ==> s[i] == a && a !in s[..i]
    ensures i == -1 <==> a !in s
  {
    if s == [] then -1
    else if s[0] == a then 0
    else
      var i := Index(s[1..], a);
      assert i >= 0 ==> s[..i + 1] == [s[0]] + s[1..][..i];
      if i < 0 then -1 else i + 1
  }

  predicate Distinct(s: seq<Address>)
  {
    forall i, j :: 0 <= i < j < |s| ==> s[i] != s[j]
  }

  function Added(s: seq<Address>, a: Address): (r: seq<Address>)
  {
    if a in s then s else s + [a]
  }

  function AddedAll(s: seq<Address>, more: seq<Address>): (r: seq<Address>)
    decreases |more|
  {
    if more == [] then s else AddedAll(Added(s, more[0]), more[1..])
  }

  /** A list with later repetitions left out. */
  function FirstSeen(s: seq<Address>): seq<Address>
  {
    AddedAll([], s)
  }

  lemma {:induction false} AddedAllConcat(s: seq<Address>, a: seq<Address>, b: seq<Address>)
    ensures AddedAll(s, a + b) == AddedAll(AddedAll(s, a), b)
    decreases |a|
  {
    if a == [] {
      assert a + b == b;
    } else {
      AddedAllConcat(Added(s, a[0]), a[1..], b);
      assert (a + b)[1..] == a[1..] + b;
    }
  }

  /** Adding keeps a set a set, keeps what it held in front, and adds just the new members. */
  lemma {:induction false} AddedAllIsUnion(s: seq<Address>, more: seq<Address>)
    requires Distinct(s)
    ensures Distinct(AddedAll(s, more)) && s <= AddedAll(s, more)
    ensures forall a :: a in AddedAll(s, more) <==> a in s || a in more
    decreases |more|
  {
    if more != [] {
      AddedAllIsUnion(Added(s, more[0]), more[1..]);
      assert more == [more[0]] + more[1..];
    }
  }

  lemma FoundAt(s: seq<Address>, a: Address, i: nat)
    requires i < |s| && s[i] == a && a !in s[..i]
    ensures Index(s, a) == i
  {
    var j := Index(s, a);
    assert forall k :: 0 <= k < i ==> s[k] in s[..i];
    assert forall k :: 0 <= k < j ==> s[k] in s[..j];
  }

  lemma IndexInConcat(a: seq<Address>, b: seq<Address>, x: Address)
    ensures Index(a + b, x) == if x in a then Index(a, x) else if x in b then |a| + Index(b, x) else -1
  {
    hide Index;
    if x in a {
      var i := Index(a, x);
      assert (a + b)[..i] == a[..i];
      FoundAt(a + b, x, i);
    } else if x in b {
      var i := Index(b, x);
      assert (a + b)[..|a| + i] == a + b[..i];
      FoundAt(a + b, x, |a| + i);
    }
  }

  lemma {:induction false} FirstSeenLast(s: seq<Address>, last: Address)
    ensures FirstSeen(s + [last]) == Added(FirstSeen(s), last)
  {
    AddedAllConcat([], s, [last]);
  }

  /** FirstSeen keeps exactly the members, each once, in the order they first occur. */
  lemma {:induction false} FirstSeenKeepsOrder(s: seq<Address>)
    ensures Distinct(FirstSeen(s)) && forall a :: a in FirstSeen(s) <==> a in s
    ensures forall i, j :: 0 <= i < j < |FirstSeen(s)| ==> Index(s, FirstSeen(s)[i]) < Index(s, FirstSeen(s)[j])
    decreases |s|
  {
    if s != [] {
      FirstSeenKeepsOrder(s[..|s| - 1]);
      OrderNext(s);
    }
  }

  lemma OrderNext(s: seq<Address>)
    requires s != []
    requires var seen := FirstSeen(s[..|s| - 1]);
             forall i, j :: 0 <= i < j < |seen| ==> Index(s[..|s| - 1], seen[i]) < Index(s[..|s| - 1], seen[j])
    ensures Distinct(FirstSeen(s)) && forall a :: a in FirstSeen(s) <==> a in s
    ensures forall i, j :: 0 <= i < j < |FirstSeen(s)| ==> Index(s, FirstSeen(s)[i]) < Index(s, FirstSeen(s)[j])
  {
    hide Index, AddedAll, FirstSeen;
    var init, last := s[..|s| - 1], s[|s| - 1];
    assert s == init + [last];
    FirstSeenLast(init, last);
    SeenOnce(init);
    SeenOnce(s);
    forall x | x in s
      ensures Index(s, x) == if x in init then Index(init, x) else |init|
    {
      IndexInConcat(init, [last], x);
    }
  }

  lemma SeenOnce(s: seq<Address>)
    ensures Distinct(FirstSeen(s)) && forall a :: a in FirstSeen(s) <==> a in s
  {
    AddedAllIsUnion([], s);
  }

  lemma {:induction false} FirstSeenOfDistinct(s: seq<Address>)
    requires Distinct(s)
    ensures FirstSeen(s) == s
  {
    if s != [] {
      var init, last := s[..|s| - 1], s[|s| - 1];
      assert s == init + [last];
      FirstSeenOfDistinct(init);
      FirstSeenLast(init, last);
    }
  }

  /** New members follow one another as they do in the list they are added from. */
  lemma AddedInOrder(s: seq<Address>, more: seq<Address>)
    requires Distinct(s)
    ensures s <= AddedAll(s, more)
    ensures var others := AddedAll(s, more)[|s|..];
            forall i, j :: 0 <= i < j < |others| ==> Index(more, others[i]) < Index(more, others[j])
  {
    hide Index, AddedAll, FirstSeen;
    FirstSeenOfDistinct(s);
    AddedAllIsUnion(s, more);
    FirstSeenConcat(s, more);
    FirstSeenKeepsOrder(s + more);
    var all := AddedAll(s, more);
    forall i | |s| <= i < |all|
      ensures all[i] !in s && Index(s + more, all[i]) == |s| + Index(more, all[i])
    {
      IndexInConcat(s, more, all[i]);
    }
  }

  lemma FirstSeenConcat(a: seq<Address>, b: seq<Address>)
    ensures FirstSeen(a + b) == AddedAll(FirstSeen(a), b)
  {
    AddedAllConcat([], a, b);
  }

  function Removed(s: seq<Address>, a: Address): seq<Address>
  {
    var i := Index(s, a);
    if i < 0 then s else s[..i] + s[i + 1..]
  }

  lemma RemovedIsDifference(s: seq<Address>, a: Address)
    requires Distinct(s)
    ensures Distinct(Removed(s, a))
    ensures forall x :: x in Removed(s, a) <==> x in s && x != a
  {
    hide Index;
    var i := Index(s, a);
    if i >= 0 {
      var r := Removed(s, a);
      assert forall k :: 0 <= k < |r| ==> r[k] == if k < i then s[k] else s[k + 1];
      forall x
        ensures x in r <==> x in s && x != a
      {
        if x in s && x != a {
          var k :| 0 <= k < |s| && s[k] == x;
          assert r[if k < i then k else k - 1] == x;
        }
      }
    }
  }

  /** One more element of a list, except the one at i. */
  lemma CutOut(s: seq<Address>, i: nat, k: nat)
    requires i < |s| && k <= |s|
    ensures k < |s| ==> s[..k + 1] == s[..k] + [s[k]]
    ensures k < |s| && i < k ==> s[..i] + s[i + 1..k + 1] == s[..i] + s[i + 1..k] + [s[k]]
    ensures s[i + 1..|s|] == s[i + 1..] && s[i + 1..i + 1] == []
  {
    assert k < |s| && i < k ==> s[i + 1..k + 1] == s[i + 1..k] + [s[k]];
  }

  class AddressSet {
    var elements: seq<Address>

    constructor ()
      ensures elements == []
    {
      elements := [];
    }

    method IndexOf(a: Address) returns (i: int)
      ensures i == Index(elements, a)
    {
      i := 0;
      while i < |elements|
        invariant 0 <= i <= |elements| && a !in elements[..i]
      {
        if elements[i] == a {
          FoundAt(elements, a, i);
          return i;
        }
        assert elements[..i + 1] == elements[..i] + [elements[i]];
        i := i + 1;
      }
      assert elements[..i] == elements;
      return -1;
    }

    method Add(a: Address) returns (i: int)
      modifies this
      ensures elements == Added(old(elements), a)
      ensures i == if a in old(elements) then -1 else |old(elements)|
    {
      i := IndexOf(a);
      if i == -1 {
        elements := elements + [a];
        return |elements| - 1;
      }
      return -1;
    }

    method Remove(a: Address) returns (i: int)
      modifies this
      ensures elements == Removed(old(elements), a) && i == Index(old(elements), a)
    {
      i := IndexOf(a);
      if i >= 0 {
        var kept := [];
        for k := 0 to |elements|
          invariant elements == old(elements)
          invariant kept == if k <= i then elements[..k] else elements[..i] + elements[i + 1..k]
        {
          if k != i {
            kept := kept + [elements[k]];
          }
          CutOut(elements, i, k);
        }
        CutOut(elements, i, |elements|);
        elements := kept;
      }
    }

    method Replace(source: AddressSet)
      requires source != this
      modifies this
      ensures elements == source.elements
    {
      var copied := [];
      for i := 0 to |source.elements|
        invariant copied == source.elements[..i]
      {
        copied := copied + [source.elements[i]];
      }
      elements := copied;
    }

    method AddAll(source: AddressSet)
      requires source != this
      modifies this
      ensures elements == AddedAll(old(elements), source.elements)
    {
      for i := 0 to |source.elements|
        invariant elements == AddedAll(old(elements), source.elements[..i])
      {
        AddedAllConcat(old(elements), source.elements[..i], [source.elements[i]]);
        assert source.elements[..i + 1] == source.elements[..i] + [source.elements[i]];
        var _ := Add(source.elements[i]);
      }
      assert source.elements[..|source.elements|] == source.elements;
    }
  }
}
