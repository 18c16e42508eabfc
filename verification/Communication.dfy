/** The send and receive loops over a transport that moves any positive number of bytes. */
module Communication {
  import opened Bytes

  /** A socket. Inbound are the bytes still to come from the peer, outbound those it has
      accepted. One that sends reports no error when given bytes, and one that receives none
      while bytes are to come; another one may fail at any call. */
  class Transport {
    const sends: bool
    const receives: bool
    var inbound: Octets
    var outbound: Octets

    constructor (sends: bool, receives: bool, inbound: Octets)
      ensures this.sends == sends && this.receives == receives && this.inbound == inbound && outbound == []
    {
      this.sends := sends;
      this.receives := receives;
      this.inbound := inbound;
      this.outbound := [];
    }

    /** Accepts some of the bytes, at least one, or fails and accepts none. */
    method Send(bytes: Octets) returns (ok: bool, sent: nat)
      requires bytes != []
      modifies this`outbound
      ensures sends ==> ok
      ensures if ok then 1 <= sent <= |bytes| && outbound == old(outbound) + bytes[..sent]
              else outbound == old(outbound)
    {
      var works: bool := *;
      if !sends && !works {
        return false, 0;
      }
      sent := Fragment(|bytes|);
      outbound := outbound + bytes[..sent];
      ok := true;
    }

    /** Delivers some of the bytes to come, at least one and at most max, or fails. */
    method Recv(max: nat) returns (ok: bool, bytes: Octets)
      requires max > 0
      modifies this`inbound
      ensures receives ==> (ok <==> old(inbound) != [])
      ensures if ok then 1 <= |bytes| <= max && old(inbound) == bytes + inbound
              else inbound == old(inbound)
    {
      var works: bool := *;
      if inbound == [] || (!receives && !works) {
        return false, [];
      }
      var n := Fragment(if max < |inbound| then max else |inbound|);
      bytes := inbound[..n];
      inbound := inbound[n..];
      ok := true;
    }
  }

  /** Any number from one to max. */
  method Fragment(max: nat) returns (n: nat)
    requires max > 0
    ensures 1 <= n <= max
  {
    n :| 1 <= n <= max;
  }

  /** Sends all the bytes, in as many pieces as the transport makes of them. */
  method SendAll(wire: Transport, bytes: Octets) returns (ok: bool)
    modifies wire`outbound
    ensures wire.sends ==> ok
    ensures ok ==> wire.outbound == old(wire.outbound) + bytes
    ensures old(wire.outbound) <= wire.outbound <= old(wire.outbound) + bytes
  {
    var total := 0;
    while total < |bytes|
      invariant total <= |bytes| && wire.outbound == old(wire.outbound) + bytes[..total]
    {
      var sent: nat;
      ok, sent := wire.Send(bytes[total..]);
      if !ok {
        return false;
      }
      assert bytes[..total + sent] == bytes[..total] + bytes[total..][..sent];
      total := total + sent;
    }
    assert bytes[..total] == bytes;
    return true;
  }

  /** Receives at least min and at most max bytes into dest from index at on. */
  method ReceiveBetween(wire: Transport, dest: array<Byte>, at: nat, min: nat, max: nat)
    returns (ok: bool, received: nat)
    requires min <= max && at + max <= dest.Length
    modifies wire`inbound, dest
    ensures received <= max && dest[..at] == old(dest[..at])
    ensures dest[at..at + received] + wire.inbound == old(wire.inbound)
    ensures ok <==> min <= received
    ensures wire.receives ==> (ok <==> min <= |old(wire.inbound)|)
  {
    received := 0;
    while received < min
      invariant received <= max && dest[..at] == old(dest[..at])
      invariant dest[at..at + received] + wire.inbound == old(wire.inbound)
      decreases min - received
    {
      ghost var before, coming := dest[at..at + received], wire.inbound;
      var bytes: Octets;
      ok, bytes := wire.Recv(max - received);
      if !ok {
        return false, received;
      }
      forall i | 0 <= i < |bytes| {
        dest[at + received + i] := bytes[i];
      }
      assert dest[at..at + received + |bytes|] == before + bytes;
      Associative(before, bytes, wire.inbound);
      received := received + |bytes|;
    }
    return true, received;
  }
}
