/** A connection: its buffers, its protocol state, and the calls that load, send, receive
    and fetch. The protocol state of versions 1 and 2 is that of version 3 with other
    signatures and keys. */
module Connections {
  import opened Bytes
  import opened Values
  import opened Signatures
  import opened PackStream
  import opened RoundTrip
  import opened Mem
  import opened Buffering
  import opened Storage
  import opened Framing
  import opened Sessions
  import Loading
  import opened Unloading
  import opened Communication

  ghost predicate Apart(a: BoltBuffer, b: BoltBuffer)
    reads a, b
  {
    a != b && a.data != b.data
  }

  /** How a fetch ends. Unanswered: a receive failed, and the code is -1. Unset: the
      message left a variable unset that the code goes on to read. */
  datatype Outcome = Answered(code: int) | Unanswered | Unset

  class ProtocolState {
    const version: Version
    const tx: BoltBuffer
    const rx: BoltBuffer
    var nextRequestId: nat
    var responses: nat
    var dataType: int
    var data: Cell
    var failure: Option<Failure>
    var metadata: seq<Value>
    var fieldNames: Option<seq<Value>>

    ghost predicate Valid()
      reads this, tx, rx
    {
      tx.Valid() && rx.Valid() && Apart(tx, rx) && WellStored(data)
    }

    ghost function Abstract(): Session
      requires Valid()
      reads this, rx, rx.data, tx
    {
      Session(rx.Contents(), responses, dataType, View(data), failure, metadata, fieldNames)
    }

    constructor (version: Version)
      ensures Valid() && Abstract() == NewSession && tx.Contents() == [] && nextRequestId == 0
      ensures this.version == version && fresh(tx) && fresh(rx) && fresh(tx.data) && fresh(rx.data)
    {
      this.version := version;
      this.tx := new BoltBuffer(8192);
      this.rx := new BoltBuffer(8192);
      this.nextRequestId := 0;
      this.responses := 0;
      this.dataType := RECORD;
      this.data := NullCell;
      this.failure := None;
      this.metadata := [];
      this.fieldNames := None;
    }

    /** Unloads the message in the connection's receive buffer into the recycled data value. */
    method UnloadReply(mem: BoltMem) returns (determined: bool, code: int)
      requires Valid() && mem.Valid()
      modifies this`dataType, this`data, rx, rx.data, mem
      ensures Valid() && mem.Valid() && rx.data == old(rx.data)
      ensures match UnloadMessage(Readable(version), old(Abstract()))
        case Undetermined => !determined
        case Reacted(c, s) => determined && code == c && Abstract() == s
    {
      if rx.Unloadable() == 0 {
        return true, OK;
      }
      ghost var bytes := rx.Contents();
      var _, marker := rx.UnloadU8();
      if MarkerTypeOf(marker) != StructureMark {
        return true, PROTOCOL_VIOLATION;
      }
      assert bytes[1..] != [] ==> bytes[1..][1..] == bytes[2..] && bytes[1..][0] == bytes[1];
      determined, code := UnloadTyped(mem, marker % 0x10);
    }

    /** Unloads what follows the marker of a message of n fields. */
    method UnloadTyped(mem: BoltMem, n: nat) returns (determined: bool, code: int)
      requires Valid() && mem.Valid()
      modifies this`dataType, this`data, rx, rx.data, mem
      ensures Valid() && mem.Valid() && rx.data == old(rx.data)
      ensures var s := old(Abstract());
              if s.pending == [] then determined && code == FETCH_ERROR && Abstract() == s
              else match DecodeMany(Readable(version), true, ListSlots(s.data, n), s.pending[1..])
                case UndefinedMany => !determined
                case ParsedMany(status, fields, rest) =>
                  determined && code == CodeOf(status) &&
                  Abstract() == s.(pending := rest, dataType := s.pending[0], data := List(fields))
    {
      var ok, type_ := rx.UnloadU8();
      if !ok {
        return true, FETCH_ERROR;
      }
      dataType := type_;
      determined, code := UnloadFields(mem, n);
    }

    method UnloadFields(mem: BoltMem, n: nat) returns (determined: bool, code: int)
      requires Valid() && mem.Valid()
      modifies this`data, rx, rx.data, mem
      ensures Valid() && mem.Valid() && rx.data == old(rx.data)
      ensures match DecodeMany(Readable(version), true, ListSlots(old(View(data)), n),
                               old(rx.Contents()))
        case UndefinedMany => !determined
        case ParsedMany(status, fields, rest) =>
          determined && code == CodeOf(status) && View(data) == List(fields) &&
          rx.Contents() == rest
    {
      var list := FormatAsList(mem, data, n);
      var e, cells := UnloadMany(Readable(version), true, rx, mem, Kids(list));
      data := WithKids(list, cells);
      determined := e != Stopped;
      code := if determined then CodeOf(e.status) else OK;
    }

    /** One entry of the metadata of a summary. */
    method Extract(key: Value, value: Value)
      requires Valid()
      modifies this`failure, this`metadata, this`fieldNames
      ensures Valid() && Abstract() == ExtractEntry(version, old(Abstract()), key, value)
    {
      if key == String(BOOKMARK_KEY) || key == String(SERVER_KEY) {
      } else if key == String(FIELDS_KEY) {
        if value.List? {
          fieldNames := Some(StringsOnly(value.items));
        }
      } else if version == V3 && key == String(CONNECTION_ID_KEY) {
      } else if key == String(CODE_KEY) && dataType == FAILURE {
        if value.String? {
          failure := Some(Ensured(failure).(code := value));
        }
      } else if key == String(MESSAGE_KEY) && dataType == FAILURE {
        if value.String? {
          failure := Some(Ensured(failure).(message := value));
        }
      } else {
        metadata := metadata + [key, value];
      }
    }

    method ExtractMetadata(pairs: seq<Value>)
      requires Valid()
      modifies this`failure, this`metadata, this`fieldNames
      ensures Valid()
      ensures Abstract() == ExtractFrom(version, old(Abstract()), pairs, 0)
    {
      var i := 0;
      while 2 * i + 1 < |pairs|
        invariant 2 * i <= |pairs| && Valid()
        invariant ExtractFrom(version, Abstract(), pairs, i) ==
                  ExtractFrom(version, old(Abstract()), pairs, 0)
      {
        Extract(pairs[2 * i], pairs[2 * i + 1]);
        i := i + 1;
      }
    }

    /** Counts a summary and takes its metadata over. */
    method CountSummary()
      requires Valid()
      modifies this`responses, this`failure, this`metadata, this`fieldNames
      ensures Valid() && Abstract() == Summarised(version, old(Abstract()))
    {
      responses := responses + 1;
      metadata := [];
      var fields := if View(data).List? then View(data).items else [];
      if fields != [] && fields[0].Dictionary? {
        ExtractMetadata(fields[0].pairs);
      }
    }
  }

  class Connection {
    const tx: BoltBuffer
    const rx: BoltBuffer
    const wire: Transport
    const mem: BoltMem
    const protocol: ProtocolState
    var state: ConnectionState

    ghost predicate Valid()
      reads this, tx, rx, mem, protocol, protocol.tx, protocol.rx
    {
      tx.Valid() && rx.Valid() && mem.Valid() && protocol.Valid() &&
      Apart(tx, rx) && Apart(tx, protocol.tx) && Apart(tx, protocol.rx) &&
      Apart(rx, protocol.tx) && Apart(rx, protocol.rx)
    }

    /** Everything still to be read: what is buffered and what the peer has yet to deliver. */
    ghost function Incoming(): Octets
      requires rx.Valid()
      reads rx, rx.data, wire
    {
      rx.Contents() + wire.inbound
    }

    /** A connection right after a successful handshake. */
    constructor (wire: Transport, mem: BoltMem, version: Version)
      requires mem.Valid()
      ensures Valid() && this.wire == wire && this.mem == mem && fresh(protocol) && protocol.version == version
      ensures tx.Contents() == [] && rx.Contents() == [] && protocol.tx.Contents() == []
      ensures protocol.Abstract() == NewSession && protocol.nextRequestId == 0 && state == Connected
      ensures fresh(tx) && fresh(tx.data) && fresh(rx) && fresh(rx.data)
      ensures fresh(protocol.tx) && fresh(protocol.tx.data) && fresh(protocol.rx) && fresh(protocol.rx.data)
    {
      this.wire := wire;
      this.mem := mem;
      this.state := Connected;
      this.protocol := new ProtocolState(version);
      this.tx := new BoltBuffer(8192);
      this.rx := new BoltBuffer(8192);
    }

    // -------------------------------------------------------------- loading and sending

    /** Loads a message into the transmit buffer, framed, or leaves it as it was. */
    method LoadMessage(code: int, fields: seq<Value>) returns (status: Status)
      requires Valid() && protocol.tx.Contents() == [] && Representable(Structure(code, fields))
      modifies protocol`nextRequestId, protocol.tx, protocol.tx.data, tx, tx.data
      ensures Valid() && protocol.tx.Contents() == []
      ensures var e := Emit(Writable(protocol.version), Structure(code, fields));
              status == e.status &&
              tx.Contents() == old(tx.Contents()) + (if status == Success then Frame(e.bytes) else []) &&
              protocol.nextRequestId == old(protocol.nextRequestId) + if status == Success then 1 else 0
      ensures tx.data == old(tx.data) || fresh(tx.data)
      ensures protocol.tx.data == old(protocol.tx.data) || fresh(protocol.tx.data)
    {
      ghost var e := Emit(Writable(protocol.version), Structure(code, fields));
      status := Stage(Writable(protocol.version), protocol.tx, code, fields);
      assert [] + e.bytes == e.bytes && old(tx.Contents()) + [] == old(tx.Contents());
      if status == Success {
        assert protocol.tx.Contents() == e.bytes;
        PushToTransmission(protocol.tx, tx);
        assert tx.Contents() == old(tx.Contents()) + Frame(e.bytes);
        protocol.nextRequestId := protocol.nextRequestId + 1;
      }
    }

    /** A reset forgets the failure once it is loaded. */
    method LoadReset() returns (status: Status)
      requires Valid() && protocol.tx.Contents() == []
      modifies protocol`nextRequestId, protocol`failure, protocol.tx, protocol.tx.data, tx, tx.data
      ensures Valid() && protocol.tx.Contents() == [] && status == Success
      ensures tx.Contents() == old(tx.Contents()) + Frame([0xB0, 0x0F])
      ensures protocol.nextRequestId == old(protocol.nextRequestId) + 1 && protocol.failure == None
      ensures tx.data == old(tx.data) || fresh(tx.data)
      ensures protocol.tx.data == old(protocol.tx.data) || fresh(protocol.tx.data)
    {
      EmptyMessage(protocol.version, RESET);
      status := LoadMessage(RESET, []);
      if status == Success {
        protocol.failure := None;
      }
    }

    /** Begin, commit and rollback of versions 1 and 2: a run request and then a discard. */
    method LoadWithDiscard(code: int, fields: seq<Value>) returns (status: Status)
      requires Valid() && protocol.tx.Contents() == [] && Representable(Structure(code, fields))
      modifies protocol`nextRequestId, protocol.tx, protocol.tx.data, tx, tx.data
      ensures Valid() && protocol.tx.Contents() == []
      ensures var e := Emit(Writable(protocol.version), Structure(code, fields));
              status == e.status &&
              tx.Contents() == old(tx.Contents()) +
                               (if status == Success then Frame(e.bytes) + Frame([0xB0, 0x2F]) else []) &&
              protocol.nextRequestId == old(protocol.nextRequestId) + if status == Success then 2 else 0
    {
      ghost var e := Emit(Writable(protocol.version), Structure(code, fields));
      status := LoadMessage(code, fields);
      if status == Success {
        Associative(old(tx.Contents()), Frame(e.bytes), Frame([0xB0, DISCARD_ALL]));
        EmptyMessage(protocol.version, DISCARD_ALL);
        status := LoadMessage(DISCARD_ALL, []);
      }
    }

    /** Hands the whole transmit buffer to the transport. */
    method Send() returns (ok: bool)
      requires Valid()
      modifies this`state, tx, tx.data, wire`outbound
      ensures Valid() && tx.Contents() == [] && tx.data == old(tx.data)
      ensures if ok then wire.outbound == old(wire.outbound) + old(tx.Contents()) && state == old(state)
              else state == Defunct
      ensures old(wire.outbound) <= wire.outbound <= old(wire.outbound) + old(tx.Contents())
      ensures wire.sends ==> ok
    {
      var size := tx.Unloadable();
      ghost var all := tx.Contents();
      assert all[..size] == all && all[size..] == [];
      var _, at := tx.UnloadPointer(size);
      ok := SendAll(wire, tx.data[at..at + size]);
      if !ok {
        state := Defunct;
      }
      tx.Compact();
    }

    // -------------------------------------------------------------- receiving

    /** Delivers the next size bytes into dest, taking from the transport only what the
        receive buffer lacks. A call that does not fail loses nothing; one that fails leaves
        the extent of the buffer advanced, so that more bytes seem to be coming than there are. */
    method Receive(dest: array<Byte>, at: nat, size: nat) returns (ok: bool)
      requires Valid() && dest != rx.data && at + size <= dest.Length
      modifies this`state, rx, rx.data, wire`inbound, dest
      ensures rx.Valid() && (rx.data == old(rx.data) || fresh(rx.data))
      ensures dest[..at] == old(dest[..at]) && dest[at + size..] == old(dest[at + size..])
      ensures if ok then size <= |old(Incoming())| && dest[at..at + size] == old(Incoming())[..size] &&
                         Incoming() == old(Incoming())[size..] && state == old(state)
              else state == Defunct && |Incoming()| > |old(Incoming())|
      ensures wire.receives ==> (ok <==> size <= |old(Incoming())|)
    {
      if size == 0 {
        return true;
      }
      ok := Refill(size);
      if !ok {
        return false;
      }
      TakenFromFront(rx.Contents(), wire.inbound, size);
      var _, bytes := rx.Unload(size);
      Store(dest, at, bytes);
    }

    /** Makes at least size bytes available in the receive buffer. */
    method Refill(size: nat) returns (ok: bool)
      requires Valid()
      modifies this`state, rx, rx.data, wire`inbound
      ensures rx.Valid() && (rx.data == old(rx.data) || fresh(rx.data))
      ensures if ok then size <= |rx.Contents()| && Incoming() == old(Incoming()) && state == old(state)
              else state == Defunct && |Incoming()| > |old(Incoming())|
      ensures wire.receives ==> (ok <==> size <= |old(Incoming())|)
    {
      var available := rx.Unloadable();
      var delta: int := size - available;
      while delta > 0
        invariant rx.Valid() && (rx.data == old(rx.data) || fresh(rx.data))
        invariant delta == size - |rx.Contents()| || (delta <= 0 && size <= |rx.Contents()|)
        invariant Incoming() == old(Incoming()) && state == old(state)
      {
        var received: nat;
        ok, received := ReceiveMore(delta);
        if !ok {
          return false;
        }
        delta := delta - received;
      }
      return true;
    }

    /** One receive from the transport into the free end of the receive buffer. When it
        fails, the extent is left where the reservation put it. */
    method ReceiveMore(delta: nat) returns (ok: bool, received: nat)
      requires Valid() && delta > 0
      modifies this`state, rx, rx.data, wire`inbound
      ensures rx.Valid() && (rx.data == old(rx.data) || fresh(rx.data))
      ensures if ok then delta <= received && |rx.Contents()| == |old(rx.Contents())| + received &&
                         Incoming() == old(Incoming()) && state == old(state)
              else state == Defunct && |Incoming()| > |old(Incoming())|
      ensures wire.receives ==> (ok <==> delta <= |old(wire.inbound)|)
    {
      var at, maxSize := Reserve(rx, delta);
      ghost var front := rx.data[..at];
      ok, received := ReceiveBetween(wire, rx.data, at, delta, maxSize);
      if !ok {
        state := Defunct;
        assert |old(wire.inbound)| == received + |wire.inbound|;
        return false, received;
      }
      ghost var taken := rx.data[at..at + received];
      rx.extent := rx.extent - maxSize + received;
      SplitSlice(rx.data[..rx.extent], rx.cursor, at);
      assert rx.data[..rx.extent][..at] == front && rx.data[..rx.extent][at..] == taken;
      Associative(old(rx.Contents()), taken, wire.inbound);
    }

    // -------------------------------------------------------------- fetching

    /** Receives one chunk of n bytes into the protocol's receive buffer. */
    method ReceiveChunk(n: nat) returns (ok: bool)
      requires Valid()
      modifies this`state, rx, rx.data, wire`inbound, protocol.rx, protocol.rx.data
      ensures Valid() && (rx.data == old(rx.data) || fresh(rx.data))
      ensures protocol.rx.data == old(protocol.rx.data) || fresh(protocol.rx.data)
      ensures if ok then n <= |old(Incoming())| && Incoming() == old(Incoming())[n..] && state == old(state) &&
                         protocol.rx.Contents() == old(protocol.rx.Contents()) + old(Incoming())[..n]
              else state == Defunct
      ensures wire.receives ==> (ok <==> n <= |old(Incoming())|)
    {
      var target := protocol.rx;
      var at := target.LoadPointer(n);
      ghost var front := target.data[..at];
      assert front[target.cursor..] == target.Contents()[..at - target.cursor];
      ok := Receive(target.data, at, n);
      SplitSlice(target.data[..target.extent], target.cursor, at);
      assert target.data[..target.extent][..at] == front;
      assert target.data[..target.extent][at..] == target.data[at..at + n];
    }

    method ReceiveHeader() returns (ok: bool, n: nat)
      requires Valid()
      modifies this`state, rx, rx.data, wire`inbound
      ensures Valid() && (rx.data == old(rx.data) || fresh(rx.data))
      ensures if ok then 2 <= |old(Incoming())| && n == HeaderSize(old(Incoming())[..2]) &&
                         Incoming() == old(Incoming())[2..] && state == old(state)
              else state == Defunct
      ensures wire.receives ==> (ok <==> 2 <= |old(Incoming())|)
    {
      var header := new Byte[2](_ => 0);
      ok := Receive(header, 0, 2);
      assert header[..] == header[0..2];
      n := HeaderSize(header[..]);
    }

    /** Receives the chunks of one message, up to its terminator. */
    method ReceiveMessage() returns (ok: bool)
      requires Valid()
      modifies this`state, rx, rx.data, wire`inbound, protocol.rx, protocol.rx.data
      ensures Valid() && (rx.data == old(rx.data) || fresh(rx.data))
      ensures protocol.rx.data == old(protocol.rx.data) || fresh(protocol.rx.data)
      ensures if ok then state == old(state) && Dechunk(old(Incoming())).Whole? &&
                         Incoming() == Dechunk(old(Incoming())).rest &&
                         protocol.rx.Contents() == old(protocol.rx.Contents()) + Dechunk(old(Incoming())).message
              else state == Defunct
      ensures wire.receives ==> (ok <==> Dechunk(old(Incoming())).Whole?)
    {
      DechunkReadsHeader(Incoming());
      var n: nat;
      ok, n := ReceiveHeader();
      if !ok {
        return;
      }
      protocol.rx.Compact();
      ok := ReceiveChunks(n);
    }

    /** Receives chunks, the first of n bytes, until a header announces none. */
    method ReceiveChunks(first: nat) returns (ok: bool)
      requires Valid()
      modifies this`state, rx, rx.data, wire`inbound, protocol.rx, protocol.rx.data
      ensures Valid() && (rx.data == old(rx.data) || fresh(rx.data))
      ensures protocol.rx.data == old(protocol.rx.data) || fresh(protocol.rx.data)
      ensures var d := DechunkAfterHeader(first, old(Incoming()));
              if ok then state == old(state) && d.Whole? && Incoming() == d.rest &&
                         protocol.rx.Contents() == old(protocol.rx.Contents()) + d.message
              else state == Defunct && (wire.receives ==> d == Partial)
    {
      ghost var before, whole := protocol.rx.Contents(), DechunkAfterHeader(first, Incoming());
      ghost var done: Octets := [];
      var n := first;
      while n != 0
        invariant Valid() && (rx.data == old(rx.data) || fresh(rx.data))
        invariant protocol.rx.data == old(protocol.rx.data) || fresh(protocol.rx.data)
        invariant state == old(state) && protocol.rx.Contents() == before + done
        invariant whole == Behind(done, DechunkAfterHeader(n, Incoming()))
        decreases |Incoming()|, n
      {
        ghost var incoming := Incoming();
        ghost var size := n;
        ok, n := ReceiveChunkAndHeader(n);
        if !ok {
          return;
        }
        BehindTwice(done, incoming[..size], DechunkAfterHeader(n, Incoming()));
        Associative(before, done, incoming[..size]);
        done := done + incoming[..size];
      }
      assert done + [] == done;
      return true;
    }

    /** Receives the chunk a header announced, and the header after it. */
    method ReceiveChunkAndHeader(n: nat) returns (ok: bool, next: nat)
      requires Valid() && n > 0
      modifies this`state, rx, rx.data, wire`inbound, protocol.rx, protocol.rx.data
      ensures Valid() && (rx.data == old(rx.data) || fresh(rx.data))
      ensures protocol.rx.data == old(protocol.rx.data) || fresh(protocol.rx.data)
      ensures !ok ==> state == Defunct && (wire.receives ==> DechunkAfterHeader(n, old(Incoming())) == Partial)
      ensures ok ==> state == old(state) && n <= |old(Incoming())| && |Incoming()| < |old(Incoming())| &&
                     protocol.rx.Contents() == old(protocol.rx.Contents()) + old(Incoming())[..n] &&
                     DechunkAfterHeader(n, old(Incoming())) ==
                     Behind(old(Incoming())[..n], DechunkAfterHeader(next, Incoming()))
    {
      ghost var incoming := Incoming();
      next := 0;
      ok := ReceiveChunk(n);
      if !ok {
        return;
      }
      DechunkReadsHeader(incoming[n..]);
      ok, next := ReceiveHeader();
    }

    /** Unloads a received message and, when it is a summary, counts it. */
    method TakeIn() returns (determined: bool, code: int)
      requires Valid()
      modifies protocol, protocol.rx, protocol.rx.data, mem
      ensures Valid() && protocol.rx.data == old(protocol.rx.data)
      ensures protocol.nextRequestId == old(protocol.nextRequestId)
      ensures match React(protocol.version, old(protocol.Abstract()))
        case Undetermined => !determined
        case Reacted(c, s) => determined && code == c && protocol.Abstract() == s
    {
      determined, code := protocol.UnloadReply(mem);
      if determined && code == OK && protocol.dataType != RECORD {
        protocol.CountSummary();
      }
    }

    /** Takes in one message; the fetch is over when it answers the request or fails. */
    method FetchMessage(request: nat) returns (o: Option<Outcome>)
      requires Valid()
      modifies this`state, rx, rx.data, wire`inbound, protocol, protocol.rx, protocol.rx.data, mem
      ensures Valid() && (rx.data == old(rx.data) || fresh(rx.data))
      ensures protocol.rx.data == old(protocol.rx.data) || fresh(protocol.rx.data)
      ensures protocol.nextRequestId == old(protocol.nextRequestId)
      ensures var f := Fetch(protocol.version, old(protocol.Abstract()), old(Incoming()), request);
              match o
              case None => f == Fetch(protocol.version, protocol.Abstract(), Incoming(), request) &&
                           state == old(state) && |Incoming()| < |old(Incoming())|
              case Some(end) => Ends(end, f, old(state))
    {
      var ok := ReceiveMessage();
      if !ok {
        return Some(Unanswered);
      }
      var response := protocol.responses;
      var determined, code := TakeIn();
      if !determined {
        return Some(Unset);
      }
      if code != OK {
        return Some(Answered(code));
      }
      if response == request {
        return Some(Answered(if protocol.dataType != RECORD then FETCH_SUMMARY else FETCH_RECORD));
      }
      return None;
    }

    /** How the outcome of a fetch relates to what Fetch says of the session and stream. */
    ghost predicate Ends(o: Outcome, f: Fetched, before: ConnectionState)
      requires Valid()
      reads this, tx, rx, rx.data, wire, mem, protocol, protocol.tx, protocol.rx, protocol.rx.data
    {
      match o
      case Answered(code) => f == Fetched(code, protocol.Abstract(), Incoming()) && state == before
      case Unanswered => state == Defunct && (wire.receives ==> f == Broken)
      case Unset => f == Lost
    }

    /** Takes in messages until one answers the request. */
    method FetchReply(request: nat) returns (o: Outcome)
      requires Valid()
      modifies this`state, rx, rx.data, wire`inbound, protocol, protocol.rx, protocol.rx.data, mem
      ensures Valid() && (rx.data == old(rx.data) || fresh(rx.data))
      ensures protocol.rx.data == old(protocol.rx.data) || fresh(protocol.rx.data)
      ensures protocol.nextRequestId == old(protocol.nextRequestId)
      ensures Ends(o, Fetch(protocol.version, old(protocol.Abstract()), old(Incoming()), request), old(state))
    {
      ghost var whole := Fetch(protocol.version, protocol.Abstract(), Incoming(), request);
      while true
        invariant Valid() && (rx.data == old(rx.data) || fresh(rx.data))
        invariant protocol.rx.data == old(protocol.rx.data) || fresh(protocol.rx.data)
        invariant protocol.nextRequestId == old(protocol.nextRequestId) && state == old(state)
        invariant whole == Fetch(protocol.version, protocol.Abstract(), Incoming(), request)
        decreases |Incoming()|
      {
        var end := FetchMessage(request);
        if end.Some? {
          return end.value;
        }
      }
    }

    ghost predicate ConnectionEnds(o: Outcome, f: ConnectionFetched)
      requires Valid()
      reads this, tx, rx, rx.data, wire, mem, protocol, protocol.tx, protocol.rx, protocol.rx.data
    {
      match o
      case Answered(code) => f == ConnectionFetched(code, state, protocol.Abstract(), Incoming())
      case Unanswered => state == Defunct && (wire.receives ==> f == ConnectionBroken)
      case Unset => f == ConnectionLost
    }

    /** Fetches and lets a summary decide the connection's state. */
    method FetchNext(request: nat) returns (o: Outcome)
      requires Valid()
      modifies this`state, rx, rx.data, wire`inbound, protocol, protocol.rx, protocol.rx.data, mem
      ensures Valid() && (rx.data == old(rx.data) || fresh(rx.data))
      ensures protocol.rx.data == old(protocol.rx.data) || fresh(protocol.rx.data)
      ensures protocol.nextRequestId == old(protocol.nextRequestId)
      ensures var f := ConnectionFetch(protocol.version, old(state), old(protocol.Abstract()), old(Incoming()), request);
              ConnectionEnds(o, f)
      ensures o == Answered(0) ==>
                protocol.dataType in {0x70, 0x7E, 0x7F} &&
                state == if protocol.dataType == 0x70 then Ready
                         else if protocol.dataType == 0x7F || protocol.failure.Some? then Failed
                         else old(state)
    {
      hide Fetch;
      o := FetchReply(request);
      if o == Answered(FETCH_SUMMARY) {
        if protocol.dataType == SUCCESS {
          state := Ready;
        } else if protocol.dataType == IGNORED {
          if protocol.failure.Some? {
            state := Failed;
          }
        } else if protocol.dataType == FAILURE {
          state := Failed;
        } else {
          state := Defunct;
          return Answered(FETCH_ERROR);
        }
      }
    }

    /** Fetches until the summary of the request and counts what came before it. */
    method FetchWholeSummary(request: nat) returns (o: Outcome)
      requires Valid()
      modifies this`state, rx, rx.data, wire`inbound, protocol, protocol.rx, protocol.rx.data, mem
      ensures Valid() && (rx.data == old(rx.data) || fresh(rx.data))
      ensures protocol.rx.data == old(protocol.rx.data) || fresh(protocol.rx.data)
      ensures protocol.nextRequestId == old(protocol.nextRequestId)
      ensures var f := FetchSummary(protocol.version, old(state), old(protocol.Abstract()), old(Incoming()), request, 0);
              ConnectionEnds(o, f)
    {
      hide Fetch, ConnectionFetch;
      ghost var whole := FetchSummary(protocol.version, state, protocol.Abstract(), Incoming(), request, 0);
      var records := 0;
      while true
        invariant Valid() && (rx.data == old(rx.data) || fresh(rx.data))
        invariant protocol.rx.data == old(protocol.rx.data) || fresh(protocol.rx.data)
        invariant protocol.nextRequestId == old(protocol.nextRequestId)
        invariant whole == FetchSummary(protocol.version, state, protocol.Abstract(), Incoming(), request, records)
        decreases |Incoming()|
      {
        o := FetchNext(request);
        if !o.Answered? || o.code < 0 {
          return;
        }
        if o.code == 0 {
          return Answered(records);
        }
        records := records + o.code;
      }
    }
  }

  /** Copies bytes into an array. */
  method Store(dest: array<Byte>, at: nat, bytes: Octets)
    requires at + |bytes| <= dest.Length
    modifies dest
    ensures dest[..at] == old(dest[..at]) && dest[at..at + |bytes|] == bytes
    ensures dest[at + |bytes|..] == old(dest[at + |bytes|..])
  {
    forall i | 0 <= i < |bytes| {
      dest[at + i] := bytes[i];
    }
  }

  /** Reserves at least delta bytes behind the contents, and all the free space there is. */
  method Reserve(rx: BoltBuffer, delta: nat) returns (at: nat, maxSize: nat)
    requires rx.Valid()
    modifies rx, rx.data
    ensures rx.Valid() && (rx.data == old(rx.data) || fresh(rx.data))
    ensures maxSize >= delta && rx.cursor <= at && rx.extent == at + maxSize
    ensures rx.data[..at][rx.cursor..] == old(rx.Contents())
  {
    maxSize := rx.Loadable();
    if maxSize == 0 {
      rx.Compact();
      maxSize := rx.Loadable();
    }
    maxSize := if delta > maxSize then delta else maxSize;
    at := rx.LoadPointer(maxSize);
    assert rx.data[..at][rx.cursor..] == rx.Contents()[..at - rx.cursor];
  }

  lemma SplitSlice(s: Octets, i: nat, j: nat)
    requires i <= j <= |s|
    ensures s[i..] == s[..j][i..] + s[j..]
  {
  }

  lemma EmitStructure(check: Check, code: int, fields: seq<Value>)
    requires Representable(Structure(code, fields))
    ensures AllRepresentable(fields)
    ensures var e, header := Emit(check, Structure(code, fields)), StructureHeader(code, |fields|);
            if !Accepts(check, code) then e == Emitted(UnsupportedType, [])
            else if header.status != Success then e.status == header.status
            else e == Prefixed(header.bytes, EmitAll(check, fields))
  {
    assert Children(Structure(code, fields)) == fields;
  }

  /** Encodes a message into the staging buffer; when that fails at any depth, cursor and
      extent go back to where they were. */
  method Stage(check: Check, staging: BoltBuffer, code: int, fields: seq<Value>) returns (status: Status)
    requires staging.Valid() && Representable(Structure(code, fields))
    modifies staging, staging.data
    ensures staging.Valid() && (staging.data == old(staging.data) || fresh(staging.data))
    ensures var e := Emit(check, Structure(code, fields));
            status == e.status &&
            staging.Contents() == old(staging.Contents()) + if status == Success then e.bytes else []
  {
    var prevCursor, prevExtent := staging.cursor, staging.extent;
    EmitStructure(check, code, fields);
    status := Loading.LoadStructure(check, staging, code, fields);
    if status != Success {
      ghost var held, all := staging.data[prevCursor..staging.extent], staging.extent;
      assert held[..prevExtent - prevCursor] == old(staging.Contents());
      assert staging.data[prevCursor..prevExtent] == held[..prevExtent - prevCursor];
      staging.cursor := prevCursor;
      staging.extent := prevExtent;
    }
  }

  /** A message without fields always loads, as its two header bytes. */
  lemma EmptyMessage(version: Version, code: int)
    requires Accepts(Writable(version), code)
    ensures Representable(Structure(code, [])) && Emit(Writable(version), Structure(code, [])).status == Success
    ensures Emit(Writable(version), Structure(code, [])).bytes == [0xB0, code]
  {
    AcceptedCodesFitOneByte(Writable(version), code);
    StructureHeaderBytes(Writable(version), code, 0);
    assert [0xB0, code] + EmitAll(Writable(version), []).bytes == [0xB0, code];
  }
}
