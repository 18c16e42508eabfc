/** All the value trees a program holds, and the allocation counter over any run of calls. */
module LiveValues {
  import opened Bytes
  import opened Mem
  import opened Storage

  /** One call on a value or on something nested in it. */
  datatype Edit =
    | ToNull
    | ToBoolean(data: Byte)
    | ToInteger(number: int)
    | ToFloat(bits: Octets)
    | ToString(text: Octets)
    | ToUnsetString(length: nat)
    | ToBytes(octets: Octets)
    | ToList(size: nat)
    | ToDictionary(size: nat)
    | ToStructure(code: int, fields: nat)
    | KeyAt(index: nat, key: Octets)
    | CopyOf(source: Cell)

  /** What the call demands of its arguments and of the value. */
  predicate Fits(e: Edit, c: Cell)
  {
    match e
    case ToInteger(n) => INT64_MIN <= n <= INT64_MAX
    case ToFloat(bits) => |bits| == 8
    case KeyAt(index, _) => c.kind == DictionaryKind && index < c.size
    case CopyOf(source) => WellStored(source)
    case _ => true
  }

  method EditCell(mem: BoltMem, c: Cell, e: Edit) returns (r: Cell)
    requires mem.Valid() && WellStored(c) && Fits(e, c)
    modifies mem
    ensures mem.Valid() && WellStored(r)
    ensures mem.allocation == old(mem.allocation) - Owned(c) + Owned(r)
  {
    match e {
      case ToNull => r := FormatAsNull(mem, c);
      case ToBoolean(data) => r := FormatAsBoolean(mem, c, data);
      case ToInteger(n) => r := FormatAsInteger(mem, c, n);
      case ToFloat(bits) => r := FormatAsFloat(mem, c, bits);
      case ToString(text) => r := FormatAsString(mem, c, Some(text), |text|);
      case ToUnsetString(length) => r := FormatAsString(mem, c, None, length);
      case ToBytes(octets) => r := FormatAsBytes(mem, c, Some(octets), |octets|);
      case ToList(size) => r := FormatAsList(mem, c, size);
      case ToDictionary(size) => r := FormatAsDictionary(mem, c, size);
      case ToStructure(code, fields) => r := FormatAsStructure(mem, c, code, fields);
      case KeyAt(index, key) => r := SetKey(mem, c, index, key);
      case CopyOf(source) => r := Copy(mem, c, source);
    }
  }

  /** The cell a path of indices leads to. */
  function At(c: Cell, path: seq<nat>): (r: Option<Cell>)
    requires WellStored(c)
    ensures r.Some? ==> WellStored(r.value)
    decreases path
  {
    if path == [] then Some(c)
    else if path[0] >= |Kids(c)| then None
    else At(Kids(c)[path[0]], path[1..])
  }

  method EditAt(mem: BoltMem, c: Cell, path: seq<nat>, e: Edit) returns (r: Cell)
    requires mem.Valid() && WellStored(c)
    requires At(c, path).Some? && Fits(e, At(c, path).value)
    modifies mem
    ensures mem.Valid() && WellStored(r)
    ensures mem.allocation == old(mem.allocation) - Owned(c) + Owned(r)
    decreases path
  {
    if path == [] {
      r := EditCell(mem, c, e);
    } else {
      var i := path[0];
      var k := EditAt(mem, Kids(c)[i], path[1..], e);
      OwnedUpdate(Kids(c), i, k);
      ViewsUpdate(Kids(c), i, k);
      r := WithKids(c, Kids(c)[i := k]);
    }
  }

  datatype Call = Create | Destroy(root: nat) | Change(root: nat, path: seq<nat>, edit: Edit)

  /** The bytes owned by value trees: each root struct and everything under it. */
  function Footprint(roots: seq<Cell>): nat
  {
    CELL_SIZE * |roots| + OwnedAll(roots)
  }

  lemma OwnedWithout(cs: seq<Cell>, i: nat)
    requires i < |cs|
    ensures OwnedAll(cs) == OwnedAll(cs[..i] + cs[i + 1..]) + Owned(cs[i])
  {
    var before, after := cs[..i], cs[i + 1..];
    OwnedConcat(before, [cs[i]] + after);
    OwnedConcat(before, after);
    assert cs == before + ([cs[i]] + after);
  }

  class Program {
    const mem: BoltMem
    var roots: seq<Cell>
    ghost const start: int

    ghost predicate Valid()
      reads this, mem
    {
      mem.Valid() && AllWellStored(roots) && mem.allocation == start + Footprint(roots)
    }

    constructor (mem: BoltMem)
      requires mem.Valid()
      ensures Valid() && this.mem == mem && start == mem.allocation && roots == []
    {
      this.mem := mem;
      this.start := mem.allocation;
      this.roots := [];
    }

    predicate Allowed(call: Call)
      requires AllWellStored(roots)
      reads this
    {
      match call
      case Create => true
      case Destroy(root) => root < |roots|
      case Change(root, path, edit) =>
        root < |roots| && At(roots[root], path).Some? && Fits(edit, At(roots[root], path).value)
    }

    method Perform(call: Call)
      requires Valid() && Allowed(call)
      modifies this, mem
      ensures Valid()
      ensures match call
        case Create => roots == old(roots) + [NullCell]
        case Destroy(root) => roots == old(roots)[..root] + old(roots)[root + 1..]
        case Change(root, _, _) => |roots| == |old(roots)| && roots == old(roots)[root := roots[root]]
    {
      match call {
        case Create =>
          mem.Allocate(CELL_SIZE);
          OwnedConcat(roots, [NullCell]);
          ViewsOfNulls(1);
          assert NullCells(1) == [NullCell];
          roots := roots + [NullCell];
        case Destroy(root) => Release(root);
        case Change(root, path, edit) =>
          var c := EditAt(mem, roots[root], path, edit);
          OwnedUpdate(roots, root, c);
          roots := roots[root := c];
      }
    }

    method Release(root: nat)
      requires Valid() && root < |roots|
      modifies this, mem
      ensures Valid() && roots == old(roots)[..root] + old(roots)[root + 1..]
    {
      OwnedWithout(roots, root);
      var c := FormatAsNull(mem, roots[root]);
      mem.Deallocate(false, CELL_SIZE);
      roots := roots[..root] + roots[root + 1..];
    }

    /** Any run of calls. A call whose arguments the implementation asserts against is left
        out of the run. */
    method Run(calls: seq<Call>)
      requires Valid()
      modifies this, mem
      ensures Valid()
    {
      for i := 0 to |calls|
        invariant Valid()
      {
        if Allowed(calls[i]) {
          Perform(calls[i]);
        }
      }
    }

    /** After any run, destroying every live value brings the counter back to its start. */
    method RunAndDestroyAll(calls: seq<Call>)
      requires Valid()
      modifies this, mem
      ensures Valid() && roots == [] && mem.allocation == start
    {
      Run(calls);
      while roots != []
        invariant Valid()
        decreases |roots|
      {
        Release(0);
      }
    }
  }
}
