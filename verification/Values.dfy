/** What a BoltValue means, apart from how it is stored. */
module Values {
  import opened Bytes

  /** Floats are eight opaque bytes in host order. A dictionary holds its keys and values
      alternately, as the value block of the implementation does: item 2i is key i and
      item 2i+1 is its value. */
  datatype Value =
    | Null
    | Boolean(flag: bool)
    | Integer(number: int)
    | Float(bits: Octets)
    | String(text: Octets)
    | Bytes(octets: Octets)
    | List(items: seq<Value>)
    | Dictionary(pairs: seq<Value>)
    | Structure(code: int, fields: seq<Value>)

  /** The sub-values of a value, in storage order. */
  function Children(v: Value): (cs: seq<Value>)
    ensures forall c :: c in cs ==> c < v
  {
    match v
    case List(items) => items
    case Dictionary(pairs) => pairs
    case Structure(_, fields) => fields
    case _ => []
  }

  /** What the C types can hold: 64-bit integers, 8-byte floats, 32-bit sizes, 16-bit
      structure codes, and string dictionary keys. */
  predicate Representable(v: Value)
  {
    (match v
     case Null => true
     case Boolean(_) => true
     case Integer(n) => INT64_MIN <= n <= INT64_MAX
     case Float(bits) => |bits| == 8
     case String(text) => |text| <= INT32_MAX
     case Bytes(octets) => |octets| <= INT32_MAX
     case List(items) => |items| <= INT32_MAX
     case Dictionary(pairs) =>
       |pairs| % 2 == 0 && |pairs| / 2 <= INT32_MAX &&
       forall i :: 0 <= i < |pairs| / 2 ==> pairs[2 * i].String?
     case Structure(code, fields) => INT16_MIN <= code <= INT16_MAX && |fields| <= INT32_MAX)
    && forall c :: c in Children(v) ==> Representable(c)
  }

  predicate AllRepresentable(vs: seq<Value>)
  {
    forall v :: v in vs ==> Representable(v)
  }

  function Nulls(n: nat): (vs: seq<Value>)
    ensures |vs| == n && forall v :: v in vs ==> v == Null
  {
    seq(n, _ => Null)
  }

  /** Resizing keeps the leading sub-values and pads with nulls. */
  function Resized(vs: seq<Value>, n: nat): (r: seq<Value>)
    ensures |r| == n
    ensures forall i :: 0 <= i < n ==> r[i] == if i < |vs| then vs[i] else Null
  {
    if n <= |vs| then vs[..n] else vs + Nulls(n - |vs|)
  }

  /** The elements a list target offers after it has been formatted as a list of n. */
  function ListSlots(target: Value, n: nat): (r: seq<Value>)
    ensures |r| == n
  {
    if target.List? then Resized(target.items, n) else Nulls(n)
  }

  function DictionarySlots(target: Value, n: nat): (r: seq<Value>)
    ensures |r| == 2 * n
  {
    if target.Dictionary? then Resized(target.pairs, 2 * n) else Nulls(2 * n)
  }
}
