/** Any interleaving of buffer operations against a plain sequence of bytes. */
module Queues {
  import opened Bytes
  import opened Buffering

  datatype QueueOp =
    | LoadOp(bytes: Octets)
    | LoadSignedOp(width: nat, number: int)
    | UnloadOp(count: nat)
    | UnloadPointerOp(count: nat)
    | UnloadSignedOp(width: nat)
    | PeekOp
    | CompactOp

  datatype Answer = Nothing | Got(bytes: Octets) | GotNumber(number: int) | Refused

  /** What an integer operation demands of its width and its argument. */
  predicate Fits(op: QueueOp)
  {
    match op
    case LoadSignedOp(width, x) => width > 0 && -(Range(width) / 2) <= x < Range(width) / 2
    case UnloadSignedOp(width) => width > 0
    case _ => true
  }

  /** The operation on a plain sequence of bytes. */
  function Queued(s: Octets, op: QueueOp): (Octets, Answer)
    requires Fits(op)
  {
    match op
    case LoadOp(bytes) => (s + bytes, Nothing)
    case LoadSignedOp(width, x) => (s + SignedBE(width, x), Nothing)
    case UnloadOp(n) => if n <= |s| then (s[n..], Got(s[..n])) else (s, Refused)
    case UnloadPointerOp(n) => if n <= |s| then (s[n..], Got(s[..n])) else (s, Refused)
    case UnloadSignedOp(width) => if width <= |s| then (s[width..], GotNumber(SignedBEValue(s[..width]))) else (s, Refused)
    case PeekOp => if s != [] then (s, Got(s[..1])) else (s, Refused)
    case CompactOp => (s, Nothing)
  }

  predicate AllFit(ops: seq<QueueOp>)
  {
    forall i :: 0 <= i < |ops| ==> Fits(ops[i])
  }

  function Replay(s: Octets, ops: seq<QueueOp>): (r: (Octets, seq<Answer>))
    requires AllFit(ops)
    ensures |r.1| == |ops|
  {
    if ops == [] then (s, [])
    else
      var (t, answers) := Replay(s, ops[..|ops| - 1]);
      var (u, answer) := Queued(t, ops[|ops| - 1]);
      (u, answers + [answer])
  }

  /** Bytes come out in the order they went in, whatever is loaded and unloaded between. */
  lemma {:induction false} WhatWentInComesOut(s: Octets, ops: seq<QueueOp>)
    requires AllFit(ops)
    ensures s + LoadedBytes(ops) == UnloadedBytes(s, ops) + Replay(s, ops).0
  {
    if ops != [] {
      var init, op := ops[..|ops| - 1], ops[|ops| - 1];
      WhatWentInComesOut(s, init);
      var t := Replay(s, init).0;
      StepConserves(t, op);
      Associative(s, LoadedBytes(init), LoadedBy(op));
      Associative(UnloadedBytes(s, init), t, LoadedBy(op));
      Associative(UnloadedBytes(s, init), UnloadedBy(t, op), Queued(t, op).0);
    }
  }

  lemma StepConserves(s: Octets, op: QueueOp)
    requires Fits(op)
    ensures s + LoadedBy(op) == UnloadedBy(s, op) + Queued(s, op).0
  {
  }

  function LoadedBy(op: QueueOp): Octets
    requires Fits(op)
  {
    match op
    case LoadOp(bytes) => bytes
    case LoadSignedOp(width, x) => SignedBE(width, x)
    case _ => []
  }

  function LoadedBytes(ops: seq<QueueOp>): Octets
    requires AllFit(ops)
  {
    if ops == [] then [] else LoadedBytes(ops[..|ops| - 1]) + LoadedBy(ops[|ops| - 1])
  }

  /** The bytes an operation takes off the front. */
  function UnloadedBy(s: Octets, op: QueueOp): Octets
  {
    match op
    case UnloadOp(n) => if n <= |s| then s[..n] else []
    case UnloadPointerOp(n) => if n <= |s| then s[..n] else []
    case UnloadSignedOp(width) => if width <= |s| then s[..width] else []
    case _ => []
  }

  function UnloadedBytes(s: Octets, ops: seq<QueueOp>): Octets
    requires AllFit(ops)
  {
    if ops == [] then []
    else UnloadedBytes(s, ops[..|ops| - 1]) + UnloadedBy(Replay(s, ops[..|ops| - 1]).0, ops[|ops| - 1])
  }

  method RunQueueOp(buffer: BoltBuffer, op: QueueOp) returns (answer: Answer)
    requires buffer.Valid() && Fits(op)
    modifies buffer, buffer.data
    ensures buffer.Valid() && (buffer.data == old(buffer.data) || fresh(buffer.data))
    ensures (buffer.Contents(), answer) == Queued(old(buffer.Contents()), op)
  {
    answer := Nothing;
    match op {
      case LoadOp(bytes) => buffer.Load(bytes);
      case LoadSignedOp(width, x) => buffer.LoadSigned(width, x);
      case UnloadOp(n) =>
        var ok, bytes := buffer.Unload(n);
        answer := if ok then Got(bytes) else Refused;
      case UnloadPointerOp(n) =>
        var ok, at := buffer.UnloadPointer(n);
        answer := if ok then Got(buffer.data[at..at + n]) else Refused;
      case UnloadSignedOp(width) =>
        var ok, x := buffer.UnloadSigned(width);
        answer := if ok then GotNumber(x) else Refused;
      case PeekOp =>
        var ok, x := buffer.PeekU8();
        assert ok ==> [x] == buffer.Contents()[..1];
        answer := if ok then Got([x]) else Refused;
      case CompactOp => buffer.Compact();
    }
  }

  /** Runs the operations on the buffer, with growth, compaction and all. */
  method RunQueue(buffer: BoltBuffer, ops: seq<QueueOp>) returns (answers: seq<Answer>)
    requires buffer.Valid() && AllFit(ops)
    modifies buffer, buffer.data
    ensures buffer.Valid() && (buffer.Contents(), answers) == Replay(old(buffer.Contents()), ops)
  {
    answers := [];
    for i := 0 to |ops|
      invariant buffer.Valid() && (buffer.data == old(buffer.data) || fresh(buffer.data))
      invariant (buffer.Contents(), answers) == Replay(old(buffer.Contents()), ops[..i])
    {
      assert ops[..i + 1][..i] == ops[..i];
      var answer := RunQueueOp(buffer, ops[i]);
      answers := answers + [answer];
    }
    assert ops[..|ops|] == ops;
  }
}
