/** Any sequence of receives on a connection. */
module Deliveries {
  import opened Bytes
  import opened Framing
  import opened Communication
  import opened Connections
  import opened Mem
  import opened Sessions
  import opened Signatures

  /** Receives pieces of the sizes asked until one fails. The pieces and what is left,
      buffered or still to come, are the bytes there were exactly when none has failed; after
      a failure there seem to be more. Over a transport that does not fail, all are delivered
      exactly when there are enough. */
  method ReceiveEach(connection: Connection, sizes: seq<nat>) returns (ok: bool, pieces: seq<Octets>)
    requires connection.Valid()
    modifies connection`state, connection.rx, connection.rx.data, connection.wire`inbound
    ensures connection.rx.Valid() && |pieces| <= |sizes| && (ok <==> |pieces| == |sizes|)
    ensures forall i :: 0 <= i < |pieces| ==> |pieces[i]| == sizes[i]
    ensures ok <==> Flat(pieces) + connection.Incoming() == old(connection.Incoming())
    ensures if ok then connection.Valid()
            else connection.state == Defunct &&
                 |Flat(pieces)| + |connection.Incoming()| > |old(connection.Incoming())|
    ensures connection.wire.receives ==> (ok <==> Sum(sizes) <= |old(connection.Incoming())|)
  {
    pieces := [];
    for i := 0 to |sizes|
      invariant connection.Valid() && (connection.rx.data == old(connection.rx.data) || fresh(connection.rx.data))
      invariant Flat(pieces) + connection.Incoming() == old(connection.Incoming())
      invariant |pieces| == i && forall j :: 0 <= j < i ==> |pieces[j]| == sizes[j]
      invariant |Flat(pieces)| == Sum(sizes[..i])
    {
      SumPrefix(sizes, i);
      ghost var before, incoming := Flat(pieces), connection.Incoming();
      var piece: Octets;
      ok, piece := ReceiveOne(connection, sizes[i]);
      if !ok {
        return;
      }
      FlatConcat(pieces, [piece]);
      FlatOfOne(piece);
      Associative(before, piece, connection.Incoming());
      pieces := pieces + [piece];
    }
    assert sizes[..|sizes|] == sizes;
    ok := true;
  }

  method ReceiveOne(connection: Connection, size: nat) returns (ok: bool, piece: Octets)
    requires connection.Valid()
    modifies connection`state, connection.rx, connection.rx.data, connection.wire`inbound
    ensures connection.rx.Valid() && (connection.rx.data == old(connection.rx.data) || fresh(connection.rx.data))
    ensures if ok then connection.Valid() && |piece| == size && piece + connection.Incoming() == old(connection.Incoming())
            else connection.state == Defunct && |connection.Incoming()| > |old(connection.Incoming())|
    ensures connection.wire.receives ==> (ok <==> size <= |old(connection.Incoming())|)
  {
    var dest := new Byte[size](_ => 0);
    ok := connection.Receive(dest, 0, size);
    piece := dest[0..size];
  }

  /** One byte is there and two are asked for: the call fails, and the byte and the reserved
      space behind it are left as if they had all been received. */
  method FailedReceiveSeemsToAdd(mem: BoltMem) returns (ok: bool, left: nat)
    requires mem.Valid()
    ensures !ok && left > 1
  {
    var wire := new Transport(true, true, [0x00]);
    var connection := new Connection(wire, mem, V3);
    assert |connection.Incoming()| == 1;
    var piece: Octets;
    ok, piece := ReceiveOne(connection, 2);
    left := connection.rx.Unloadable() + |wire.inbound|;
  }

  function Sum(sizes: seq<nat>): nat
  {
    if sizes == [] then 0 else Sum(sizes[..|sizes| - 1]) + sizes[|sizes| - 1]
  }

  lemma SumPrefix(sizes: seq<nat>, i: nat)
    requires i < |sizes|
    ensures Sum(sizes[..i + 1]) == Sum(sizes[..i]) + sizes[i] <= Sum(sizes)
  {
    assert sizes[..i + 1][..i] == sizes[..i];
    SumGrows(sizes, i + 1);
  }

  lemma {:induction false} SumGrows(sizes: seq<nat>, i: nat)
    requires i <= |sizes|
    ensures Sum(sizes[..i]) <= Sum(sizes)
    decreases |sizes|
  {
    if i < |sizes| {
      var init := sizes[..|sizes| - 1];
      assert init[..i] == sizes[..i];
      SumGrows(init, i);
    } else {
      assert sizes[..i] == sizes;
    }
  }
}
