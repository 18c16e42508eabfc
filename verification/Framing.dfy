/** Messages cut into chunks for transmission and put together again. */
module Framing {
  import opened Bytes
  import opened Buffering

  const MAX_CHUNK_SIZE := 65535

  /** The two header bytes of a chunk: its size, most significant byte first. */
  function ChunkHeader(n: nat): (h: Octets)
    requires n < 0x1_0000
    ensures |h| == 2 && 256 * h[0] as int + h[1] as int == n
  {
    var high: int, low: int := n / 0x100, n % 0x100;
    [high, low]
  }

  function HeaderSize(h: Octets): (n: nat)
    requires |h| == 2
    ensures n < 0x1_0000
  {
    var high: int, low: int := h[0], h[1];
    256 * high + low
  }

  predicate IsChunk(c: Octets)
  {
    1 <= |c| <= MAX_CHUNK_SIZE
  }

  predicate AreChunks(cs: seq<Octets>)
  {
    forall i :: 0 <= i < |cs| ==> IsChunk(cs[i])
  }

  function Flat(cs: seq<Octets>): Octets
  {
    if cs == [] then [] else cs[0] + Flat(cs[1..])
  }

  lemma {:induction false} FlatConcat(a: seq<Octets>, b: seq<Octets>)
    ensures Flat(a + b) == Flat(a) + Flat(b)
  {
    if a == [] {
      assert a + b == b;
    } else {
      FlatConcat(a[1..], b);
      assert (a + b)[1..] == a[1..] + b;
      Associative(a[0], Flat(a[1..]), Flat(b));
    }
  }

  lemma FlatOfOne(c: Octets)
    ensures Flat([c]) == c
  {
    assert Flat([c]) == c + Flat([]);
  }

  /** Chunks as they are transmitted: each behind its header, and an empty header at the end. */
  function Framed(cs: seq<Octets>): (s: Octets)
    requires AreChunks(cs)
    ensures |s| >= 2
  {
    if cs == [] then ChunkHeader(0) else ChunkHeader(|cs[0]|) + cs[0] + Framed(cs[1..])
  }

  /** How the client cuts a message: full chunks, and a last one for what is left. */
  function Split(message: Octets): (cs: seq<Octets>)
    ensures AreChunks(cs)
  {
    if message == [] then []
    else if |message| <= MAX_CHUNK_SIZE then [message]
    else [message[..MAX_CHUNK_SIZE]] + Split(message[MAX_CHUNK_SIZE..])
  }

  function Frame(message: Octets): Octets
  {
    Framed(Split(message))
  }

  // ---------------------------------------------------------------- putting together

  /** The next whole message of a stream, or Partial when its terminator has not come. */
  datatype Dechunked = Whole(message: Octets, rest: Octets) | Partial

  function Dechunk(stream: Octets): (d: Dechunked)
    ensures d.Whole? ==> |d.message| + |d.rest| + 2 <= |stream|
    decreases |stream|
  {
    if |stream| < 2 then Partial
    else
      var n, body := HeaderSize(stream[..2]), stream[2..];
      if n == 0 then Whole([], body)
      else if |body| < n then Partial
      else match Dechunk(body[n..])
        case Partial => Partial
        case Whole(more, rest) => Whole(body[..n] + more, rest)
  }

  /** What is left to do once a header giving n has been read. */
  function DechunkAfterHeader(n: nat, stream: Octets): Dechunked
  {
    if n == 0 then Whole([], stream)
    else if |stream| < n then Partial
    else Behind(stream[..n], Dechunk(stream[n..]))
  }

  function Behind(front: Octets, d: Dechunked): Dechunked
  {
    match d
    case Partial => Partial
    case Whole(message, rest) => Whole(front + message, rest)
  }

  lemma DechunkReadsHeader(stream: Octets)
    ensures Dechunk(stream) ==
            if |stream| < 2 then Partial else DechunkAfterHeader(HeaderSize(stream[..2]), stream[2..])
  {
  }

  lemma BehindTwice(a: Octets, b: Octets, d: Dechunked)
    ensures Behind(a, Behind(b, d)) == Behind(a + b, d)
  {
    if d.Whole? {
      assert a + (b + d.message) == a + b + d.message;
    }
  }

  lemma HeaderRoundTrip(n: nat)
    requires n < 0x1_0000
    ensures HeaderSize(ChunkHeader(n)) == n
  {
  }

  lemma HeaderIs(h: Octets)
    requires |h| == 2
    ensures ChunkHeader(HeaderSize(h)) == h
  {
    var low: int := h[1];
    assert HeaderSize(h) / 0x100 == h[0] && HeaderSize(h) % 0x100 == low;
  }

  lemma DechunkedHead(stream: Octets)
    requires Dechunk(stream).Whole?
    ensures |stream| >= 2 && stream == stream[..2] + stream[2..]
    ensures var n, body := HeaderSize(stream[..2]), stream[2..];
            if n == 0 then Dechunk(stream) == Whole([], body)
            else n <= |body| && body == body[..n] + body[n..] && Dechunk(body[n..]).Whole? &&
                 Dechunk(stream) == Behind(body[..n], Dechunk(body[n..]))
  {
    DechunkReadsHeader(stream);
    WholeAfterHeader(HeaderSize(stream[..2]), stream[2..]);
  }

  lemma WholeAfterHeader(n: nat, body: Octets)
    requires DechunkAfterHeader(n, body).Whole?
    ensures if n == 0 then DechunkAfterHeader(n, body) == Whole([], body)
            else n <= |body| && body == body[..n] + body[n..] && Dechunk(body[n..]).Whole? &&
                 DechunkAfterHeader(n, body) == Behind(body[..n], Dechunk(body[n..]))
  {
  }

  lemma FramedHead(cs: seq<Octets>, tail: Octets)
    requires AreChunks(cs) && cs != []
    ensures var stream := Framed(cs) + tail;
            |stream| >= 2 + |cs[0]| && HeaderSize(stream[..2]) == |cs[0]| &&
            stream[2..][..|cs[0]|] == cs[0] && stream[2..][|cs[0]|..] == Framed(cs[1..]) + tail
  {
    var n := |cs[0]|;
    var rest := Framed(cs[1..]) + tail;
    Associative(ChunkHeader(n) + cs[0], Framed(cs[1..]), tail);
    Associative(ChunkHeader(n), cs[0], rest);
    Joined(ChunkHeader(n), cs[0] + rest);
    Joined(cs[0], rest);
    HeaderRoundTrip(n);
  }

  /** However a message was cut, it is recovered whole, and what follows it is untouched. */
  lemma {:induction false} DechunkFramed(cs: seq<Octets>, tail: Octets)
    requires AreChunks(cs)
    ensures Dechunk(Framed(cs) + tail) == Whole(Flat(cs), tail)
  {
    var stream := Framed(cs) + tail;
    if cs == [] {
      assert stream[..2] == ChunkHeader(0) && stream[2..] == tail;
    } else {
      FramedHead(cs, tail);
      DechunkFramed(cs[1..], tail);
    }
  }

  lemma FramedCons(c: Octets, cs: seq<Octets>, tail: Octets)
    requires IsChunk(c) && AreChunks(cs)
    ensures AreChunks([c] + cs) && Flat([c] + cs) == c + Flat(cs)
    ensures Framed([c] + cs) + tail == ChunkHeader(|c|) + (c + (Framed(cs) + tail))
  {
    assert ([c] + cs)[1..] == cs;
  }

  /** Nothing else is taken for a message: a recovered message was framed just so. */
  lemma {:induction false} DechunkedWasFramed(stream: Octets) returns (cs: seq<Octets>)
    requires Dechunk(stream).Whole?
    ensures AreChunks(cs) && Flat(cs) == Dechunk(stream).message
    ensures stream == Framed(cs) + Dechunk(stream).rest
    decreases |stream|
  {
    var n, body := HeaderSize(stream[..2]), stream[2..];
    HeaderIs(stream[..2]);
    DechunkedHead(stream);
    if n == 0 {
      cs := [];
    } else {
      var more := DechunkedWasFramed(body[n..]);
      cs := [body[..n]] + more;
      FramedCons(body[..n], more, Dechunk(body[n..]).rest);
    }
  }

  lemma {:induction false} FlatSplit(message: Octets)
    ensures Flat(Split(message)) == message
    decreases |message|
  {
    if |message| > MAX_CHUNK_SIZE {
      FlatSplit(message[MAX_CHUNK_SIZE..]);
      assert Split(message)[1..] == Split(message[MAX_CHUNK_SIZE..]);
    } else if message != [] {
      assert Flat(Split(message)) == message + [];
    }
  }

  lemma FrameRoundTrip(message: Octets, tail: Octets)
    ensures Dechunk(Frame(message) + tail) == Whole(message, tail)
  {
    FlatSplit(message);
    DechunkFramed(Split(message), tail);
  }

  function ChunksFor(n: nat): nat
  {
    (n + MAX_CHUNK_SIZE - 1) / MAX_CHUNK_SIZE
  }

  /** The number of chunks is the least possible, and the frame adds two bytes for each
      and two at the end. */
  lemma {:induction false} FrameLength(message: Octets)
    ensures |Split(message)| == ChunksFor(|message|)
    ensures |Frame(message)| == |message| + 2 * (|Split(message)| + 1)
    decreases |message|
  {
    if |message| > MAX_CHUNK_SIZE {
      FrameLength(message[MAX_CHUNK_SIZE..]);
      assert Split(message)[1..] == Split(message[MAX_CHUNK_SIZE..]);
    } else if message != [] {
      assert Split(message) == [message] && [message][1..] == [];
      assert Framed([message]) == ChunkHeader(|message|) + message + ChunkHeader(0);
    }
  }

  lemma {:induction false} LeastChunks(cs: seq<Octets>)
    requires AreChunks(cs)
    ensures |Flat(cs)| <= MAX_CHUNK_SIZE * |cs|
    ensures |Framed(cs)| == |Flat(cs)| + 2 * (|cs| + 1)
  {
    if cs != [] {
      LeastChunks(cs[1..]);
    }
  }

  lemma Ceiling(n: nat, k: nat)
    requires n <= MAX_CHUNK_SIZE * k
    ensures ChunksFor(n) <= k
  {
  }

  /** No way of cutting a message takes fewer bytes than the client's. */
  lemma FrameIsShortest(cs: seq<Octets>)
    requires AreChunks(cs)
    ensures |Frame(Flat(cs))| <= |Framed(cs)|
  {
    LeastChunks(cs);
    FrameLength(Flat(cs));
    Ceiling(|Flat(cs)|, |cs|);
  }

  // ---------------------------------------------------------------- transmission

  lemma FrameStep(message: Octets, n: nat)
    requires message != [] && n == if |message| > MAX_CHUNK_SIZE then MAX_CHUNK_SIZE else |message|
    ensures Frame(message) == ChunkHeader(n) + message[..n] + Frame(message[n..])
  {
    if |message| > MAX_CHUNK_SIZE {
      assert Split(message)[1..] == Split(message[n..]);
    } else {
      assert message[..n] == message && message[n..] == [];
      assert Split(message)[1..] == Split(message[n..]);
    }
  }

  lemma Reassociate(a: Octets, b: Octets, c: Octets, d: Octets)
    ensures (a + b) + c == a + (b + c) && b + (c + d) == (b + c) + d
  {
  }

  /** Drains the staging buffer into the transmit buffer as one framed message. */
  method PushToTransmission(msg: BoltBuffer, tx: BoltBuffer)
    requires msg.Valid() && tx.Valid() && msg != tx && msg.data != tx.data
    modifies msg, msg.data, tx, tx.data
    ensures msg.Valid() && tx.Valid() && msg.data == old(msg.data) && msg.data != tx.data
    ensures msg.Contents() == []
    ensures tx.Appended(Frame(old(msg.Contents())))
  {
    ghost var done: Octets, before := [], tx.Contents();
    var remaining := msg.Unloadable();
    while remaining > 0
      invariant msg.Valid() && tx.Valid() && msg.data == old(msg.data)
      invariant msg.data != tx.data && (tx.data == old(tx.data) || fresh(tx.data))
      invariant remaining == |msg.Contents()|
      invariant Frame(old(msg.Contents())) == done + Frame(msg.Contents())
      invariant tx.Appended(done)
    {
      var current := if remaining > MAX_CHUNK_SIZE then MAX_CHUNK_SIZE else remaining;
      ghost var message := msg.Contents();
      FrameStep(message, current);
      var _, at := PushChunk(msg, tx, current);
      ghost var piece := ChunkHeader(current) + message[..current];
      Reassociate(before, done, piece, Frame(msg.Contents()));
      done := done + piece;
      remaining := remaining - current;
    }
    Reassociate(before, done, ChunkHeader(0), []);
    tx.Load(ChunkHeader(0));
    msg.Compact();
  }

  method PushChunk(msg: BoltBuffer, tx: BoltBuffer, n: nat) returns (ok: bool, at: nat)
    requires msg.Valid() && tx.Valid() && msg != tx && msg.data != tx.data
    requires 1 <= n <= |msg.Contents()| && n < 0x1_0000
    modifies msg, tx, tx.data
    ensures msg.Valid() && tx.Valid() && msg.data == old(msg.data) && msg.data != tx.data
    ensures msg.Contents() == old(msg.Contents())[n..]
    ensures tx.Appended(ChunkHeader(n) + old(msg.Contents())[..n])
  {
    hide ChunkHeader;
    ghost var before := tx.Contents();
    tx.Load(ChunkHeader(n));
    ok, at := msg.UnloadPointer(n);
    tx.Load(msg.data[at..at + n]);
    Associative(before, ChunkHeader(n), old(msg.Contents())[..n]);
  }
}
