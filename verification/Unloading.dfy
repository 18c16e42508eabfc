/** unload as the implementation runs it: reading a BoltBuffer into a recycled BoltValue. */
module Unloading {
  import opened Bytes
  import opened Values
  import opened Signatures
  import opened PackStream
  import opened Mem
  import opened Buffering
  import opened Storage

  /** Stopped: the implementation would go on from a variable that was never filled. */
  datatype Ended = Done(status: Status) | Stopped

  /** A method run did what Decode says of the target's value and the buffer's contents. */
  ghost predicate Matches(p: Parse, e: Ended, r: Cell, contents: Octets)
    requires WellStored(r)
  {
    match p
    case Undefined => e == Stopped
    case Parsed(status, value, rest) => e == Done(status) && View(r) == value && contents == rest
  }

  ghost predicate MatchesMany(p: ParseMany, e: Ended, cells: seq<Cell>, contents: Octets)
    requires AllWellStored(cells)
  {
    match p
    case UndefinedMany => e == Stopped
    case ParsedMany(status, values, rest) => e == Done(status) && Views(cells) == values && contents == rest
  }

  // ---------------------------------------------------------------- scalars

  method UnloadInteger(buffer: BoltBuffer, mem: BoltMem, c: Cell) returns (e: Ended, r: Cell)
    requires buffer.Valid() && mem.Valid() && WellStored(c)
    requires buffer.Contents() != [] && MarkerTypeOf(buffer.Contents()[0]) == IntegerMark
    modifies buffer, mem
    ensures buffer.Valid() && buffer.data == old(buffer.data) && mem.Valid() && WellStored(r)
    ensures mem.allocation == old(mem.allocation) - Owned(c) + Owned(r)
    ensures Matches(DecodeInteger(old(buffer.Contents())[0], old(buffer.Contents())[1..]), e, r, buffer.Contents())
  {
    RangeValues();
    var _, marker := buffer.UnloadU8();
    var number: int;
    if marker < 0x80 {
      number := marker;
    } else if marker >= 0xF0 {
      number := marker as int - 0x100;
    } else {
      var ok: bool;
      assert 0xC8 <= marker <= 0xCB;
      ok, number := buffer.UnloadSigned(IntegerWidth(marker));
      if !ok {
        return Stopped, c;
      }
    }
    r := FormatAsInteger(mem, c, number);
    e := Done(Success);
  }

  method UnloadFloat(buffer: BoltBuffer, mem: BoltMem, c: Cell) returns (e: Ended, r: Cell)
    requires buffer.Valid() && mem.Valid() && WellStored(c)
    requires buffer.Contents() != [] && MarkerTypeOf(buffer.Contents()[0]) == FloatMark
    modifies buffer, mem
    ensures buffer.Valid() && buffer.data == old(buffer.data) && mem.Valid() && WellStored(r)
    ensures mem.allocation == old(mem.allocation) - Owned(c) + Owned(r)
    ensures var body := old(buffer.Contents())[1..];
            if |body| < 8 then e == Stopped
            else e == Done(Success) && View(r) == Float(Reversed(body[..8])) && buffer.Contents() == body[8..]
  {
    var _, marker := buffer.UnloadU8();
    var ok, bits := buffer.UnloadReversed(8);
    if !ok {
      return Stopped, c;
    }
    r := FormatAsFloat(mem, c, bits);
    e := Done(Success);
  }

  /** Reads the size after a marker. */
  method UnloadSize(buffer: BoltBuffer, f: Family, marker: Byte) returns (known: bool, ok: bool, n: int)
    requires buffer.Valid()
    modifies buffer
    ensures buffer.Valid() && buffer.data == old(buffer.data)
    ensures match ReadSize(f, marker, old(buffer.Contents()))
      case WrongMarker => !known && buffer.Contents() == old(buffer.Contents())
      case Undersized => known && !ok
      case Sized(size, rest) => known && ok && n == size && buffer.Contents() == rest
  {
    known, ok, n := true, true, 0;
    if f != BytesFamily && TinyMarker(f) <= marker < TinyMarker(f) + 0x10 {
      n := marker as int - TinyMarker(f);
    } else if marker == SizedMarker(f) {
      ok, n := buffer.UnloadU8();
    } else if marker == SizedMarker(f) + 1 {
      ok, n := buffer.UnloadU16be();
    } else if marker == SizedMarker(f) + 2 {
      ok, n := buffer.UnloadSigned(4);
    } else {
      known := false;
    }
  }

  /** Strings and bytes. The cell is formatted for the size first and then filled. */
  method UnloadText(buffer: BoltBuffer, mem: BoltMem, c: Cell, f: Family) returns (e: Ended, r: Cell)
    requires buffer.Valid() && mem.Valid() && WellStored(c)
    requires buffer.Contents() != [] && (f == StringFamily || f == BytesFamily)
    modifies buffer, buffer.data, mem
    ensures buffer.Valid() && buffer.data == old(buffer.data) && mem.Valid() && WellStored(r)
    ensures mem.allocation == old(mem.allocation) - Owned(c) + Owned(r)
    ensures var input := old(buffer.Contents());
            Matches(DecodeText(f, input[0], input[1..], View(c)), e, r, buffer.Contents())
  {
    var _, marker := buffer.UnloadU8();
    var known, ok, n := UnloadSize(buffer, f, marker);
    if !known {
      return Done(UnexpectedMarker), c;
    }
    if !ok || n < 0 {
      return Stopped, c;
    }
    if f == BytesFamily {
      r := FormatAsBytes(mem, c, None, n);
    } else {
      r := FormatAsString(mem, c, None, n);
    }
    var text: Octets;
    ok, text := buffer.Unload(n);
    if !ok {
      return Stopped, r;
    }
    r := Filled(r, text);
    e := Done(Success);
  }

  // ---------------------------------------------------------------- nested values

  /** One more value of a run: what the run amounts to once its head is known. */
  lemma DecodeManyAdvance(check: Check, strict: bool, done: seq<Value>, targets: seq<Value>, input: Octets)
    requires targets != []
    ensures var all := PrependParsed(done, DecodeMany(check, strict, targets, input));
            match Decode(check, targets[0], input)
            case Undefined => all == UndefinedMany
            case Parsed(status, value, rest) =>
              if strict && status != Success then all == ParsedMany(status, done + [value] + targets[1..], rest)
              else all == PrependParsed(done + [value], DecodeMany(check, strict, targets[1..], rest))
  {
    var p := Decode(check, targets[0], input);
    if p.Parsed? {
      PrependTwice(done, [p.value], DecodeMany(check, strict, targets[1..], p.rest));
      assert done + ([p.value] + targets[1..]) == done + [p.value] + targets[1..];
    }
  }

  method Unload(check: Check, buffer: BoltBuffer, mem: BoltMem, c: Cell) returns (e: Ended, r: Cell)
    requires buffer.Valid() && mem.Valid() && WellStored(c)
    modifies buffer, buffer.data, mem
    ensures buffer.Valid() && buffer.data == old(buffer.data) && mem.Valid() && WellStored(r)
    ensures mem.allocation == old(mem.allocation) - Owned(c) + Owned(r)
    ensures Matches(Decode(check, View(c), old(buffer.Contents())), e, r, buffer.Contents())
    decreases |buffer.Contents()|, 2
  {
    var ok, marker := buffer.PeekU8();
    if !ok {
      return Stopped, c;
    }
    match MarkerTypeOf(marker) {
      case NullMark =>
        var _, _ := buffer.UnloadU8();
        r := FormatAsNull(mem, c);
        e := Done(Success);
      case BooleanMark =>
        var _, _ := buffer.UnloadU8();
        r := FormatAsBoolean(mem, c, if marker == 0xC3 then 1 else 0);
        e := Done(Success);
      case IntegerMark =>
        DecodeIntegerStep(check, View(c), buffer.Contents());
        e, r := UnloadInteger(buffer, mem, c);
      case FloatMark => e, r := UnloadFloat(buffer, mem, c);
      case StringMark =>
        DecodeTextStep(check, View(c), buffer.Contents(), StringFamily);
        e, r := UnloadText(buffer, mem, c, StringFamily);
      case BytesMark =>
        DecodeTextStep(check, View(c), buffer.Contents(), BytesFamily);
        e, r := UnloadText(buffer, mem, c, BytesFamily);
      case ListMark => e, r := UnloadSequence(check, buffer, mem, c, ListFamily);
      case MapMark => e, r := UnloadSequence(check, buffer, mem, c, MapFamily);
      case StructureMark => e, r := UnloadStructure(check, buffer, mem, c);
      case ReservedMark => return Done(UnexpectedMarker), c;
    }
  }

  method FormatForFamily(mem: BoltMem, c: Cell, f: Family, n: nat) returns (r: Cell)
    requires mem.Valid() && WellStored(c)
    modifies mem
    ensures mem.Valid() && WellStored(r) && r.kind == (if f == MapFamily then DictionaryKind else ListKind)
    ensures Views(Kids(r)) == Slots(f, View(c), n)
    ensures mem.allocation == old(mem.allocation) - Owned(c) + Owned(r)
  {
    if f == MapFamily {
      r := FormatAsDictionary(mem, c, n);
    } else {
      r := FormatAsList(mem, c, n);
    }
  }

  /** Lists and dictionaries. */
  method UnloadSequence(check: Check, buffer: BoltBuffer, mem: BoltMem, c: Cell, f: Family)
    returns (e: Ended, r: Cell)
    requires buffer.Valid() && mem.Valid() && WellStored(c) && buffer.Contents() != []
    requires f == ListFamily || f == MapFamily
    modifies buffer, buffer.data, mem
    ensures buffer.Valid() && buffer.data == old(buffer.data) && mem.Valid() && WellStored(r)
    ensures mem.allocation == old(mem.allocation) - Owned(c) + Owned(r)
    ensures var input := old(buffer.Contents());
            Matches(DecodeSequence(check, f, input[0], input[1..], View(c)), e, r, buffer.Contents())
    decreases |buffer.Contents()|, 1
  {
    var _, marker := buffer.UnloadU8();
    var known, ok, n := UnloadSize(buffer, f, marker);
    if !known {
      return Done(UnexpectedMarker), c;
    }
    if !ok {
      return Stopped, c;
    }
    if n < 0 {
      return Done(Violation), c;
    }
    e, r := UnloadElements(check, buffer, mem, c, f, n);
  }

  method UnloadElements(check: Check, buffer: BoltBuffer, mem: BoltMem, c: Cell, f: Family, n: nat)
    returns (e: Ended, r: Cell)
    requires buffer.Valid() && mem.Valid() && WellStored(c)
    requires f == ListFamily || f == MapFamily
    modifies buffer, buffer.data, mem
    ensures buffer.Valid() && buffer.data == old(buffer.data) && mem.Valid() && WellStored(r)
    ensures mem.allocation == old(mem.allocation) - Owned(c) + Owned(r)
    ensures Matches(Collected(f, DecodeMany(check, true, Slots(f, View(c), n), old(buffer.Contents()))), e, r,
                    buffer.Contents())
    decreases |buffer.Contents()|, 5
  {
    r := FormatForFamily(mem, c, f, n);
    var cells: seq<Cell>;
    e, cells := UnloadMany(check, true, buffer, mem, Kids(r));
    r := WithKids(r, cells);
  }

  method UnloadStructure(check: Check, buffer: BoltBuffer, mem: BoltMem, c: Cell) returns (e: Ended, r: Cell)
    requires buffer.Valid() && mem.Valid() && WellStored(c) && buffer.Contents() != []
    modifies buffer, buffer.data, mem
    ensures buffer.Valid() && buffer.data == old(buffer.data) && mem.Valid() && WellStored(r)
    ensures mem.allocation == old(mem.allocation) - Owned(c) + Owned(r)
    ensures var input := old(buffer.Contents());
            Matches(DecodeStructure(check, input[0], input[1..], View(c)), e, r, buffer.Contents())
    decreases |buffer.Contents()|, 1
  {
    var _, marker := buffer.UnloadU8();
    if !(0xB0 <= marker <= 0xBF) {
      return Done(UnexpectedMarker), c;
    }
    ghost var body := buffer.Contents();
    var ok, code := buffer.UnloadSigned(1);
    if !ok {
      return Stopped, c;
    }
    assert buffer.Contents() == body[1..];
    if !Accepts(check, code) {
      return Done(UnexpectedMarker), c;
    }
    e, r := UnloadFields(check, buffer, mem, c, code, marker as int - 0xB0);
  }

  method UnloadFields(check: Check, buffer: BoltBuffer, mem: BoltMem, c: Cell, code: int, n: nat)
    returns (e: Ended, r: Cell)
    requires buffer.Valid() && mem.Valid() && WellStored(c)
    modifies buffer, buffer.data, mem
    ensures buffer.Valid() && buffer.data == old(buffer.data) && mem.Valid() && WellStored(r)
    ensures mem.allocation == old(mem.allocation) - Owned(c) + Owned(r)
    ensures Matches(StructureOf(code, DecodeMany(check, false, Nulls(n), old(buffer.Contents()))), e, r,
                    buffer.Contents())
    decreases |buffer.Contents()|, 5
  {
    r := FormatAsStructure(mem, c, code, n);
    var cells: seq<Cell>;
    e, cells := UnloadMany(check, false, buffer, mem, Kids(r));
    r := WithKids(r, cells);
    if e != Stopped {
      e := Done(Success);
    }
  }

  lemma ReplaceAfter(done: seq<Value>, left: seq<Value>)
    requires left != []
    ensures (done + left)[|done|] == left[0]
    ensures forall v :: (done + left)[|done| := v] == done + [v] + left[1..]
  {
  }

  /** Unloads into one cell of a block. */
  method UnloadAt(check: Check, buffer: BoltBuffer, mem: BoltMem, cells: seq<Cell>, i: nat)
    returns (e: Ended, r: seq<Cell>)
    requires buffer.Valid() && mem.Valid() && AllWellStored(cells) && i < |cells|
    modifies buffer, buffer.data, mem
    ensures buffer.Valid() && buffer.data == old(buffer.data) && mem.Valid()
    ensures AllWellStored(r) && |r| == |cells|
    ensures mem.allocation - OwnedAll(r) == old(mem.allocation) - OwnedAll(cells)
    ensures match Decode(check, Views(cells)[i], old(buffer.Contents()))
      case Undefined => e == Stopped
      case Parsed(status, value, rest) =>
        e == Done(status) && Views(r) == Views(cells)[i := value] && buffer.Contents() == rest
    decreases |buffer.Contents()|, 3
  {
    var k: Cell;
    e, k := Unload(check, buffer, mem, cells[i]);
    OwnedUpdate(cells, i, k);
    ViewsUpdate(cells, i, k);
    r := cells[i := k];
  }

  /** Unloads into each cell in turn; strict runs stop at the first failure. */
  method UnloadMany(check: Check, strict: bool, buffer: BoltBuffer, mem: BoltMem, targets: seq<Cell>)
    returns (e: Ended, cells: seq<Cell>)
    requires buffer.Valid() && mem.Valid() && AllWellStored(targets)
    modifies buffer, buffer.data, mem
    ensures buffer.Valid() && buffer.data == old(buffer.data) && mem.Valid()
    ensures AllWellStored(cells) && |cells| == |targets|
    ensures mem.allocation == old(mem.allocation) - OwnedAll(targets) + OwnedAll(cells)
    ensures MatchesMany(DecodeMany(check, strict, Views(targets), old(buffer.Contents())), e, cells, buffer.Contents())
    decreases |buffer.Contents()|, 4
  {
    ghost var whole := DecodeMany(check, strict, Views(targets), buffer.Contents());
    ghost var done, left := [], Views(targets);
    cells := targets;
    for i := 0 to |targets|
      invariant buffer.Valid() && buffer.data == old(buffer.data) && mem.Valid()
      invariant AllWellStored(cells) && |cells| == |targets|
      invariant mem.allocation - OwnedAll(cells) == old(mem.allocation) - OwnedAll(targets)
      invariant |buffer.Contents()| <= |old(buffer.Contents())|
      invariant Views(cells) == done + left && |done| == i
      invariant whole == PrependParsed(done, DecodeMany(check, strict, left, buffer.Contents()))
    {
      DecodeManyAdvance(check, strict, done, left, buffer.Contents());
      ReplaceAfter(done, left);
      e, cells := UnloadAt(check, buffer, mem, cells, i);
      if e == Stopped {
        return;
      }
      ghost var value := Views(cells)[i];
      if strict && e != Done(Success) {
        return;
      }
      done, left := done + [value], left[1..];
    }
    e := Done(Success);
    assert left == [];
  }
}
