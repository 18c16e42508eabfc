/** How a BoltValue is stored: inline bytes, an external block of bytes, or a block of
    nested values, and what each operation does to the block and to the allocation count.
    A BoltValue struct lies by value inside its parent's block and moves with it, so a cell
    is a value here: an operation takes the cell it rewrites and returns the new one. */
module Storage {
  import opened Bytes
  import opened Values
  import opened Mem

  datatype Option<T> = None | Some(value: T)

  datatype Kind =
    | NullKind | BooleanKind | IntegerKind | FloatKind | StringKind
    | DictionaryKind | ListKind | BytesKind | StructureKind

  datatype Data = Inline(raw: Octets) | External(raw: Octets) | Block(cells: seq<Cell>)

  datatype Cell = Cell(kind: Kind, subtype: int, size: nat, dataSize: nat, data: Data)

  const CELL_SIZE := 32
  const INLINE_SIZE := 16

  function Zeros(n: nat): (z: Octets)
    ensures |z| == n
  {
    seq(n, _ => 0)
  }

  /** A cell in zeroed memory. */
  const NullCell := Cell(NullKind, 0, 0, 0, Inline(Zeros(INLINE_SIZE)))

  function NullCells(n: nat): (cs: seq<Cell>)
    ensures |cs| == n && forall c :: c in cs ==> c == NullCell
  {
    seq(n, _ => NullCell)
  }

  function Kids(c: Cell): (cs: seq<Cell>)
    ensures forall k :: k in cs ==> k < c
  {
    if c.data.Block? then c.data.cells else []
  }

  predicate IsContainer(kind: Kind)
  {
    kind == ListKind || kind == StructureKind || kind == DictionaryKind
  }

  /** How many nested cells a container of this logical size has. */
  function Slotted(kind: Kind, size: nat): nat
  {
    if kind == DictionaryKind then 2 * size else size
  }

  predicate WellStored(c: Cell)
  {
    && (if IsContainer(c.kind) then
          c.dataSize == CELL_SIZE * Slotted(c.kind, c.size) && |Kids(c)| == Slotted(c.kind, c.size)
        else if (c.kind == StringKind || c.kind == BytesKind) && c.size > INLINE_SIZE then
          c.dataSize == c.size && c.data.External? && |c.data.raw| == c.size
        else
          c.dataSize == 0 && c.data.Inline? && |c.data.raw| == INLINE_SIZE)
    && (c.kind == NullKind ==> c.size == 0)
    && forall k :: k in Kids(c) ==> WellStored(k)
  }

  predicate AllWellStored(cs: seq<Cell>)
  {
    forall c :: c in cs ==> WellStored(c)
  }

  // ---------------------------------------------------------------- meaning

  function View(c: Cell): (v: Value)
    requires WellStored(c)
    decreases c, 0
  {
    match c.kind
    case NullKind => Null
    case BooleanKind => Boolean(c.data.raw[0] != 0)
    case IntegerKind => Integer(ToSigned(8, HostValue(c.data.raw[..8])))
    case FloatKind => Float(c.data.raw[..8])
    case StringKind => String(c.data.raw[..c.size])
    case BytesKind => Bytes(c.data.raw[..c.size])
    case ListKind => List(if c.data.Block? then Views(c.data.cells) else [])
    case DictionaryKind => Dictionary(if c.data.Block? then Views(c.data.cells) else [])
    case StructureKind => Structure(c.subtype, if c.data.Block? then Views(c.data.cells) else [])
  }

  function Views(cs: seq<Cell>): (vs: seq<Value>)
    requires AllWellStored(cs)
    ensures |vs| == |cs| && forall i :: 0 <= i < |cs| ==> vs[i] == View(cs[i])
    decreases cs, 1
  {
    if cs == [] then [] else [View(cs[0])] + Views(cs[1..])
  }

  // ---------------------------------------------------------------- ownership

  /** The bytes of external storage a cell holds, directly and through nested cells. */
  function Owned(c: Cell): nat
    decreases c, 0
  {
    c.dataSize + if c.data.Block? then OwnedAll(c.data.cells) else 0
  }

  function OwnedAll(cs: seq<Cell>): nat
    decreases cs, 1
  {
    if cs == [] then 0 else Owned(cs[0]) + OwnedAll(cs[1..])
  }

  lemma {:induction false} OwnedConcat(a: seq<Cell>, b: seq<Cell>)
    ensures OwnedAll(a + b) == OwnedAll(a) + OwnedAll(b)
  {
    if a == [] {
      assert a + b == b;
    } else {
      OwnedConcat(a[1..], b);
      assert (a + b)[1..] == a[1..] + b;
    }
  }

  lemma OwnedUpdate(cs: seq<Cell>, i: nat, c: Cell)
    requires i < |cs|
    ensures OwnedAll(cs[i := c]) == OwnedAll(cs) - Owned(cs[i]) + Owned(c)
  {
    OwnedConcat(cs[..i], cs[i..]);
    OwnedConcat(cs[..i], [c] + cs[i + 1..]);
    assert cs == cs[..i] + cs[i..] && cs[i := c] == cs[..i] + ([c] + cs[i + 1..]);
    assert cs[i..] == [cs[i]] + cs[i + 1..];
  }

  /** Null cells own nothing. */
  lemma {:induction false} OwnedNulls(cs: seq<Cell>)
    requires forall c :: c in cs ==> WellStored(c) && c.kind == NullKind
    ensures OwnedAll(cs) == 0
  {
    if cs != [] {
      assert Kids(cs[0]) == [];
      OwnedNulls(cs[1..]);
    }
  }

  lemma ViewsUpdate(cs: seq<Cell>, i: nat, c: Cell)
    requires AllWellStored(cs) && i < |cs| && WellStored(c)
    ensures AllWellStored(cs[i := c]) && Views(cs[i := c]) == Views(cs)[i := View(c)]
  {
  }

  lemma ViewsOfNulls(n: nat)
    ensures AllWellStored(NullCells(n)) && Views(NullCells(n)) == Nulls(n) && OwnedAll(NullCells(n)) == 0
  {
    assert WellStored(NullCell);
    OwnedNulls(NullCells(n));
  }

  // ---------------------------------------------------------------- formatting

  /** Sets every nested cell to null, keeping the block. */
  method Recycle(mem: BoltMem, c: Cell) returns (r: Cell)
    requires mem.Valid() && WellStored(c)
    modifies mem
    ensures mem.Valid() && WellStored(r)
    ensures r.(data := c.data) == c && |Kids(r)| == |Kids(c)|
    ensures forall k :: k in Kids(r) ==> k.kind == NullKind
    ensures mem.allocation == old(mem.allocation) - OwnedAll(Kids(c))
    ensures OwnedAll(Kids(r)) == 0 && (Kids(c) == [] ==> r == c)
    decreases c, 0
  {
    var cells := Kids(c);
    for i := 0 to |cells|
      invariant |cells| == |Kids(c)| && mem.Valid() && AllWellStored(cells)
      invariant forall j :: 0 <= j < i ==> cells[j].kind == NullKind
      invariant forall j :: i <= j < |cells| ==> cells[j] == Kids(c)[j]
      invariant mem.allocation - OwnedAll(cells) == old(mem.allocation) - OwnedAll(Kids(c))
    {
      var k := FormatAsNull(mem, cells[i]);
      OwnedUpdate(cells, i, k);
      cells := cells[i := k];
    }
    OwnedNulls(cells);
    r := if c.data.Block? then c.(data := Block(cells)) else c;
  }

  method FormatAsNull(mem: BoltMem, c: Cell) returns (r: Cell)
    requires mem.Valid() && WellStored(c)
    modifies mem
    ensures mem.Valid() && WellStored(r) && r.kind == NullKind && Owned(r) == 0
    ensures mem.allocation == old(mem.allocation) - Owned(c)
    decreases c, 2
  {
    if c.kind != NullKind {
      r := Format(mem, c, NullKind, 0, 0, None, 0);
    } else {
      r := c;
    }
  }

  /** Gives the cell a type and a block of dataSize bytes, copied from data when it is
      given and otherwise left with whatever the memory holds. */
  method Format(mem: BoltMem, c: Cell, kind: Kind, subtype: int, size: nat, data: Option<Octets>, dataSize: nat)
    returns (r: Cell)
    requires mem.Valid() && WellStored(c) && !IsContainer(kind)
    requires data.Some? ==> |data.value| == dataSize
    modifies mem
    ensures mem.Valid()
    ensures r.kind == kind && r.subtype == subtype && r.size == size && r.dataSize == dataSize && Kids(r) == []
    ensures if dataSize == 0 then r.data.Inline? && |r.data.raw| == INLINE_SIZE
            else r.data.External? && |r.data.raw| == dataSize
    ensures dataSize > 0 && data.Some? ==> r.data.raw == data.value
    ensures mem.allocation == old(mem.allocation) - Owned(c) + Owned(r)
    decreases c, 1
  {
    var recycled := Recycle(mem, c);
    mem.Adjust(recycled.dataSize, dataSize);
    var raw := ArbitraryBytes(if dataSize == 0 then INLINE_SIZE else dataSize);
    if data.Some? && dataSize > 0 {
      raw := data.value;
    }
    r := Cell(kind, subtype, size, dataSize, if dataSize == 0 then Inline(raw) else External(raw));
  }

  /** Memory whose contents nothing has set. */
  method ArbitraryBytes(n: nat) returns (raw: Octets)
    ensures |raw| == n
  {
    assert |Zeros(n)| == n;
    raw :| |raw| == n;
  }

  method FormatAsBoolean(mem: BoltMem, c: Cell, data: Byte) returns (r: Cell)
    requires mem.Valid() && WellStored(c)
    modifies mem
    ensures mem.Valid() && WellStored(r) && View(r) == Boolean(data != 0)
    ensures mem.allocation == old(mem.allocation) - Owned(c) + Owned(r)
  {
    r := Format(mem, c, BooleanKind, 0, 1, None, 0);
    r := r.(data := Inline(r.data.raw[0 := data]));
  }

  method FormatAsInteger(mem: BoltMem, c: Cell, number: int) returns (r: Cell)
    requires mem.Valid() && WellStored(c) && INT64_MIN <= number <= INT64_MAX
    modifies mem
    ensures mem.Valid() && WellStored(r) && View(r) == Integer(number)
    ensures mem.allocation == old(mem.allocation) - Owned(c) + Owned(r)
  {
    r := Format(mem, c, IntegerKind, 0, 1, None, 0);
    RangeValues();
    var host := HostBytes(8, ToUnsigned(8, number));
    r := r.(data := Inline(host + r.data.raw[8..]));
    HostRoundTrip(8, ToUnsigned(8, number));
    SignedRoundTrip(8, number);
    assert r.data.raw[..8] == host;
  }

  method FormatAsFloat(mem: BoltMem, c: Cell, bits: Octets) returns (r: Cell)
    requires mem.Valid() && WellStored(c) && |bits| == 8
    modifies mem
    ensures mem.Valid() && WellStored(r) && View(r) == Float(bits)
    ensures mem.allocation == old(mem.allocation) - Owned(c) + Owned(r)
  {
    r := Format(mem, c, FloatKind, 0, 1, None, 0);
    r := r.(data := Inline(bits + r.data.raw[8..]));
    assert r.data.raw[..8] == bits;
  }

  /** The text area of a string or bytes cell, filled by whoever formatted it. */
  function Filled(c: Cell, text: Octets): (r: Cell)
    requires WellStored(c) && (c.kind == StringKind || c.kind == BytesKind) && |text| == c.size
    ensures WellStored(r) && Owned(r) == Owned(c)
    ensures View(r) == if c.kind == StringKind then String(text) else Bytes(text)
  {
    var raw := text + c.data.raw[c.size..];
    assert raw[..c.size] == text;
    if c.size <= INLINE_SIZE then c.(data := Inline(raw)) else c.(data := External(raw))
  }

  /** A short string lies inside the cell; a long one has an external block, which is
      resized in place when the cell already is a string. */
  method FormatAsString(mem: BoltMem, c: Cell, data: Option<Octets>, length: nat) returns (r: Cell)
    requires mem.Valid() && WellStored(c)
    requires data.Some? ==> |data.value| == length
    modifies mem
    ensures mem.Valid() && WellStored(r) && r.kind == StringKind && r.size == length
    ensures data.Some? ==> View(r) == String(data.value)
    ensures mem.allocation == old(mem.allocation) - Owned(c) + Owned(r)
  {
    if length <= INLINE_SIZE {
      r := Format(mem, c, StringKind, 0, length, None, 0);
      if data.Some? {
        r := Filled(r, data.value);
      }
    } else if c.kind == StringKind {
      mem.Adjust(c.dataSize, length);
      var raw := ArbitraryBytes(length);
      r := c.(dataSize := length, size := length, data := External(raw));
      if data.Some? {
        r := Filled(r, data.value);
      }
    } else {
      r := Format(mem, c, StringKind, 0, length, data, length);
      assert data.Some? ==> r.data.raw[..length] == data.value;
    }
  }

  method FormatAsBytes(mem: BoltMem, c: Cell, data: Option<Octets>, length: nat) returns (r: Cell)
    requires mem.Valid() && WellStored(c)
    requires data.Some? ==> |data.value| == length
    modifies mem
    ensures mem.Valid() && WellStored(r) && r.kind == BytesKind && r.size == length
    ensures data.Some? ==> View(r) == Bytes(data.value)
    ensures mem.allocation == old(mem.allocation) - Owned(c) + Owned(r)
  {
    if length <= INLINE_SIZE {
      r := Format(mem, c, BytesKind, 0, length, None, 0);
      if data.Some? {
        r := Filled(r, data.value);
      }
    } else {
      r := Format(mem, c, BytesKind, 0, length, data, length);
      assert data.Some? ==> r.data.raw[..length] == data.value;
    }
  }

  /** Grows or shrinks a container in place. Cells cut off are formatted as null first, so
      that what they own is given back. */
  method Resize(mem: BoltMem, c: Cell, size: nat) returns (r: Cell)
    requires mem.Valid() && WellStored(c) && (c.kind == ListKind || c.kind == DictionaryKind)
    modifies mem
    ensures mem.Valid() && WellStored(r) && r.kind == c.kind && r.size == size
    ensures Views(Kids(r)) == Resized(Views(Kids(c)), Slotted(c.kind, size))
    ensures mem.allocation == old(mem.allocation) - Owned(c) + Owned(r)
  {
    var wanted := Slotted(c.kind, size);
    var cells := Kids(c);
    if size > c.size {
      mem.Adjust(c.dataSize, CELL_SIZE * wanted);
      PaddedCells(cells, wanted);
      cells := cells + NullCells(wanted - |cells|);
    } else if size < c.size {
      cells := CutOff(mem, cells, wanted);
      mem.Adjust(c.dataSize, CELL_SIZE * wanted);
    }
    r := Cell(c.kind, c.subtype, size, CELL_SIZE * wanted, Block(cells));
  }

  lemma PaddedCells(cells: seq<Cell>, n: nat)
    requires AllWellStored(cells) && |cells| <= n
    ensures var padded := cells + NullCells(n - |cells|);
            AllWellStored(padded) && Views(padded) == Resized(Views(cells), n) && OwnedAll(padded) == OwnedAll(cells)
  {
    ViewsOfNulls(n - |cells|);
    OwnedConcat(cells, NullCells(n - |cells|));
  }

  /** Formats the cells from an index on as null and returns the ones before it. */
  method CutOff(mem: BoltMem, cs: seq<Cell>, n: nat) returns (kept: seq<Cell>)
    requires mem.Valid() && AllWellStored(cs) && n <= |cs|
    modifies mem
    ensures mem.Valid() && kept == cs[..n] && AllWellStored(kept) && Views(kept) == Resized(Views(cs), n)
    ensures mem.allocation == old(mem.allocation) - OwnedAll(cs) + OwnedAll(kept)
  {
    var cells := cs;
    for i := n to |cs|
      invariant |cells| == |cs| && mem.Valid() && AllWellStored(cells) && cells[..n] == cs[..n]
      invariant forall j :: n <= j < i ==> cells[j].kind == NullKind
      invariant forall j :: i <= j < |cs| ==> cells[j] == cs[j]
      invariant mem.allocation - OwnedAll(cells) == old(mem.allocation) - OwnedAll(cs)
    {
      var k := FormatAsNull(mem, cells[i]);
      OwnedUpdate(cells, i, k);
      cells := cells[i := k];
    }
    kept := cells[..n];
    assert cells == kept + cells[n..];
    OwnedConcat(kept, cells[n..]);
    OwnedNulls(cells[n..]);
  }

  /** Turns a cell into a container of zeroed cells. */
  method FormatAsBlock(mem: BoltMem, c: Cell, kind: Kind, subtype: int, size: nat) returns (r: Cell)
    requires mem.Valid() && WellStored(c) && IsContainer(kind)
    modifies mem
    ensures mem.Valid() && WellStored(r) && r.kind == kind && r.subtype == subtype && r.size == size
    ensures Views(Kids(r)) == Nulls(Slotted(kind, size))
    ensures mem.allocation == old(mem.allocation) - Owned(c) + Owned(r)
  {
    var slots := Slotted(kind, size);
    var recycled := Recycle(mem, c);
    mem.Adjust(recycled.dataSize, CELL_SIZE * slots);
    ViewsOfNulls(slots);
    r := Cell(kind, subtype, size, CELL_SIZE * slots, Block(NullCells(slots)));
  }

  method FormatAsList(mem: BoltMem, c: Cell, size: nat) returns (r: Cell)
    requires mem.Valid() && WellStored(c)
    modifies mem
    ensures mem.Valid() && WellStored(r) && View(r) == List(ListSlots(View(c), size))
    ensures r.kind == ListKind && Views(Kids(r)) == ListSlots(View(c), size)
    ensures mem.allocation == old(mem.allocation) - Owned(c) + Owned(r)
  {
    if c.kind == ListKind {
      r := Resize(mem, c, size);
    } else {
      r := FormatAsBlock(mem, c, ListKind, 0, size);
    }
  }

  method FormatAsDictionary(mem: BoltMem, c: Cell, size: nat) returns (r: Cell)
    requires mem.Valid() && WellStored(c)
    modifies mem
    ensures mem.Valid() && WellStored(r) && View(r) == Dictionary(DictionarySlots(View(c), size))
    ensures r.kind == DictionaryKind && Views(Kids(r)) == DictionarySlots(View(c), size)
    ensures mem.allocation == old(mem.allocation) - Owned(c) + Owned(r)
  {
    if c.kind == DictionaryKind {
      r := Resize(mem, c, size);
    } else {
      r := FormatAsBlock(mem, c, DictionaryKind, 0, size);
    }
  }

  method FormatAsStructure(mem: BoltMem, c: Cell, code: int, size: nat) returns (r: Cell)
    requires mem.Valid() && WellStored(c)
    modifies mem
    ensures mem.Valid() && WellStored(r) && View(r) == Structure(code, Nulls(size))
    ensures r.kind == StructureKind && r.subtype == code && Views(Kids(r)) == Nulls(size)
    ensures mem.allocation == old(mem.allocation) - Owned(c) + Owned(r)
  {
    r := FormatAsBlock(mem, c, StructureKind, code, size);
  }

  /** Writes a key into a dictionary. */
  method SetKey(mem: BoltMem, c: Cell, index: nat, key: Octets) returns (r: Cell)
    requires mem.Valid() && WellStored(c) && c.kind == DictionaryKind && index < c.size
    modifies mem
    ensures mem.Valid() && WellStored(r) && View(r) == Dictionary(View(c).pairs[2 * index := String(key)])
    ensures mem.allocation == old(mem.allocation) - Owned(c) + Owned(r)
  {
    var k := FormatAsString(mem, Kids(c)[2 * index], Some(key), |key|);
    OwnedUpdate(Kids(c), 2 * index, k);
    ViewsUpdate(Kids(c), 2 * index, k);
    r := WithKids(c, Kids(c)[2 * index := k]);
  }

  /** A container with its nested cells replaced by as many others. */
  function WithKids(c: Cell, cells: seq<Cell>): (r: Cell)
    requires WellStored(c) && IsContainer(c.kind) && |cells| == |Kids(c)| && AllWellStored(cells)
    ensures WellStored(r) && r.kind == c.kind && r.subtype == c.subtype && Kids(r) == cells
    ensures Owned(r) == c.dataSize + OwnedAll(cells) == Owned(c) - OwnedAll(Kids(c)) + OwnedAll(cells)
    ensures View(r) == match c.kind
      case DictionaryKind => Dictionary(Views(cells))
      case ListKind => List(Views(cells))
      case _ => Structure(c.subtype, Views(cells))
  {
    c.(data := Block(cells))
  }

  /** Copies the value of src, with everything nested in it, over dest. */
  method Copy(mem: BoltMem, dest: Cell, src: Cell) returns (r: Cell)
    requires mem.Valid() && WellStored(dest) && WellStored(src)
    modifies mem
    ensures mem.Valid() && WellStored(r) && View(r) == View(src)
    ensures mem.allocation == old(mem.allocation) - Owned(dest) + Owned(r)
    decreases src, 1
  {
    r := Recycle(mem, dest);
    if IsContainer(src.kind) {
      r := CopyContainer(mem, r, src);
    } else {
      r := CopyScalar(mem, r, src);
    }
  }

  method CopyScalar(mem: BoltMem, dest: Cell, src: Cell) returns (r: Cell)
    requires mem.Valid() && WellStored(dest) && WellStored(src) && !IsContainer(src.kind)
    modifies mem
    ensures mem.Valid() && WellStored(r) && View(r) == View(src)
    ensures mem.allocation == old(mem.allocation) - Owned(dest) + Owned(r)
  {
    match src.kind {
      case NullKind => r := FormatAsNull(mem, dest);
      case BooleanKind => r := FormatAsBoolean(mem, dest, if src.data.raw[0] == 0 then 0 else 1);
      case IntegerKind =>
        RangeValues();
        r := FormatAsInteger(mem, dest, ToSigned(8, HostValue(src.data.raw[..8])));
      case FloatKind => r := FormatAsFloat(mem, dest, src.data.raw[..8]);
      case StringKind => r := FormatAsString(mem, dest, Some(src.data.raw[..src.size]), src.size);
      case BytesKind => r := FormatAsBytes(mem, dest, Some(src.data.raw[..src.size]), src.size);
    }
  }

  method CopyContainer(mem: BoltMem, dest: Cell, src: Cell) returns (r: Cell)
    requires mem.Valid() && WellStored(dest) && WellStored(src) && IsContainer(src.kind)
    modifies mem
    ensures mem.Valid() && WellStored(r) && View(r) == View(src)
    ensures mem.allocation == old(mem.allocation) - Owned(dest) + Owned(r)
    decreases src, 0
  {
    if src.kind == DictionaryKind {
      r := FormatAsDictionary(mem, dest, src.size);
    } else if src.kind == ListKind {
      r := FormatAsList(mem, dest, src.size);
    } else {
      r := FormatAsStructure(mem, dest, src.subtype, src.size);
    }
    if src.data.Block? {
      var cells := CopyAll(mem, Kids(r), src.data.cells);
      r := WithKids(r, cells);
    }
  }

  method CopyAll(mem: BoltMem, dests: seq<Cell>, srcs: seq<Cell>) returns (cells: seq<Cell>)
    requires mem.Valid() && AllWellStored(dests) && AllWellStored(srcs) && |dests| == |srcs|
    modifies mem
    ensures mem.Valid() && AllWellStored(cells) && |cells| == |srcs| && Views(cells) == Views(srcs)
    ensures mem.allocation == old(mem.allocation) - OwnedAll(dests) + OwnedAll(cells)
    decreases srcs
  {
    cells := dests;
    for i := 0 to |srcs|
      invariant mem.Valid() && AllWellStored(cells) && |cells| == |srcs|
      invariant forall j :: 0 <= j < i ==> Views(cells)[j] == Views(srcs)[j]
      invariant mem.allocation - OwnedAll(cells) == old(mem.allocation) - OwnedAll(dests)
    {
      var k := Copy(mem, cells[i], srcs[i]);
      OwnedUpdate(cells, i, k);
      ViewsUpdate(cells, i, k);
      cells := cells[i := k];
    }
  }
}
