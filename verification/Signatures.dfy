/** The structure signatures each protocol version lets a client read and write. */
module Signatures {

  datatype Version = V1 | V2 | V3

  datatype Check = Readable(version: Version) | Writable(version: Version)

  const SUCCESS := 0x70
  const RECORD := 0x71
  const IGNORED := 0x7E
  const FAILURE := 0x7F

  const INIT := 0x01
  const GOODBYE := 0x02
  const ACK_FAILURE := 0x0E
  const RESET := 0x0F
  const RUN := 0x10
  const BEGIN := 0x11
  const COMMIT := 0x12
  const ROLLBACK := 0x13
  const DISCARD_ALL := 0x2F
  const PULL_ALL := 0x3F

  /** Node, Relationship, UnboundRelationship and Path. */
  const GRAPH_TYPES: set<int> := {0x4E, 0x52, 0x72, 0x50}

  /** Points, dates, times and durations, added by version 2. */
  const POINT_AND_TIME_TYPES: set<int> := {0x58, 0x59, 0x44, 0x64, 0x74, 0x54, 0x46, 0x66, 0x45}

  const SUMMARIES_AND_RECORD: set<int> := {SUCCESS, RECORD, IGNORED, FAILURE}

  predicate Accepts(check: Check, code: int)
  {
    match check
    case Readable(V1) => code in SUMMARIES_AND_RECORD || code in GRAPH_TYPES
    case Readable(_) => code in SUMMARIES_AND_RECORD || code in GRAPH_TYPES || code in POINT_AND_TIME_TYPES
    case Writable(V1) => code in {INIT, ACK_FAILURE, RESET, RUN, DISCARD_ALL, PULL_ALL}
    case Writable(V2) =>
      code in {INIT, ACK_FAILURE, RESET, RUN, DISCARD_ALL, PULL_ALL} || code in POINT_AND_TIME_TYPES
    case Writable(V3) =>
      code in {INIT, GOODBYE, RESET, RUN, BEGIN, COMMIT, ROLLBACK, DISCARD_ALL, PULL_ALL} ||
      code in POINT_AND_TIME_TYPES
  }

  /** Every accepted code fits the one signed byte that carries it on the wire. */
  lemma AcceptedCodesFitOneByte(check: Check, code: int)
    requires Accepts(check, code)
    ensures 0 < code < 0x80
  {
  }

  /** No request can be mistaken for a record or a summary by a peer that counts them. */
  lemma RequestsAreNotReplies(version: Version, code: int)
    requires Accepts(Writable(version), code)
    ensures code !in SUMMARIES_AND_RECORD
  {
  }

  /** Of what a client can write, it can read back just the points, dates, times and durations,
      and those from version 2 on. */
  lemma WritableIsReadable(version: Version, code: int)
    requires Accepts(Writable(version), code)
    ensures Accepts(Readable(version), code) <==>
            code in {0x58, 0x59, 0x44, 0x64, 0x74, 0x54, 0x46, 0x66, 0x45}
    ensures Accepts(Readable(version), code) ==> version != V1
  {
  }

  /** Nodes, relationships and paths are only ever read. */
  lemma GraphTypesAreReadOnly(version: Version, code: int)
    requires code in {0x4E, 0x52, 0x72, 0x50}
    ensures Accepts(Readable(version), code) && !Accepts(Writable(version), code)
  {
  }
}
