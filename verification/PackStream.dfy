/** The PackStream format: what load writes for a value and what unload reads from bytes. */
module PackStream {
  import opened Bytes
  import opened Values
  import opened Signatures

  datatype Status = Success | Violation | UnsupportedType | UnexpectedMarker

  // ---------------------------------------------------------------- sized headers

  /** The four kinds of value that carry a size; Bytes alone has no one-byte form. */
  datatype Family = StringFamily | ListFamily | MapFamily | BytesFamily

  function TinyMarker(f: Family): (m: Byte)
  {
    match f
    case StringFamily => 0x80
    case ListFamily => 0x90
    case MapFamily => 0xA0
    case BytesFamily => 0xC0
  }

  /** The marker of the form with an 8-bit size; the next two carry 16 and 32 bits. */
  function SizedMarker(f: Family): (m: Byte)
  {
    match f
    case StringFamily => 0xD0
    case ListFamily => 0xD4
    case MapFamily => 0xD8
    case BytesFamily => 0xCC
  }

  function SizeHeader(f: Family, n: nat): (h: Octets)
    requires n <= INT32_MAX
    ensures 1 <= |h| <= 5
  {
    RangeValues();
    if n < 0x10 && f != BytesFamily then [TinyMarker(f) + n]
    else if n < 0x100 then [SizedMarker(f), n]
    else if n < 0x1_0000 then [SizedMarker(f) + 1] + BigEndian(2, n)
    else [SizedMarker(f) + 2] + SignedBE(4, n)
  }

  /** Undersized means the input ended inside the header. */
  datatype SizeRead = Sized(size: int, rest: Octets) | Undersized | WrongMarker

  /** Reads the size that follows a marker already taken from the input. */
  function ReadSize(f: Family, marker: Byte, input: Octets): (r: SizeRead)
    ensures r.Sized? ==> |r.rest| <= |input| && INT32_MIN <= r.size <= INT32_MAX
  {
    RangeValues();
    if f != BytesFamily && TinyMarker(f) <= marker < TinyMarker(f) + 0x10 then Sized(marker - TinyMarker(f), input)
    else if marker == SizedMarker(f) then
      if |input| < 1 then Undersized else Sized(input[0], input[1..])
    else if marker == SizedMarker(f) + 1 then
      if |input| < 2 then Undersized else Sized(BigEndianValue(input[..2]), input[2..])
    else if marker == SizedMarker(f) + 2 then
      if |input| < 4 then Undersized else Sized(SignedBEValue(input[..4]), input[4..])
    else WrongMarker
  }

  lemma SizeHeaderRoundTrip(f: Family, n: nat, tail: Octets)
    requires n <= INT32_MAX
    ensures ReadSize(f, SizeHeader(f, n)[0], SizeHeader(f, n)[1..] + tail) == Sized(n, tail)
  {
    RangeValues();
    var input := SizeHeader(f, n)[1..] + tail;
    if n < 0x10 && f != BytesFamily {
      assert input == tail;
    } else if n < 0x100 {
      assert input == [n] + tail;
    } else if n < 0x1_0000 {
      BigEndianRoundTrip(2, n);
      assert input == BigEndian(2, n) + tail;
      assert input[..2] == BigEndian(2, n) && input[2..] == tail;
    } else {
      SignedBERoundTrip(4, n);
      assert input == SignedBE(4, n) + tail;
      assert input[..4] == SignedBE(4, n) && input[4..] == tail;
    }
  }

  // ---------------------------------------------------------------- integers

  function IntegerBytes(n: int): (s: Octets)
    requires INT64_MIN <= n <= INT64_MAX
    ensures |s| in {1, 2, 3, 5, 9}
  {
    RangeValues();
    if -0x10 <= n < 0x80 then [n % 256]
    else if INT8_MIN <= n <= INT8_MAX then [0xC8] + SignedBE(1, n)
    else if INT16_MIN <= n <= INT16_MAX then [0xC9] + SignedBE(2, n)
    else if INT32_MIN <= n <= INT32_MAX then [0xCA] + SignedBE(4, n)
    else [0xCB] + SignedBE(8, n)
  }

  /** The width of the integer that follows a marker in 0xC8..0xCB. */
  function IntegerWidth(marker: Byte): (w: nat)
    requires 0xC8 <= marker <= 0xCB
  {
    if marker == 0xC8 then 1 else if marker == 0xC9 then 2 else if marker == 0xCA then 4 else 8
  }

  // ---------------------------------------------------------------- markers

  datatype MarkerType =
    | NullMark | BooleanMark | IntegerMark | FloatMark | StringMark | BytesMark
    | ListMark | MapMark | StructureMark | ReservedMark

  function MarkerTypeOf(marker: Byte): MarkerType
  {
    if marker < 0x80 || 0xC8 <= marker <= 0xCB || marker >= 0xF0 then IntegerMark
    else if 0x80 <= marker <= 0x8F || 0xD0 <= marker <= 0xD2 then StringMark
    else if 0x90 <= marker <= 0x9F || 0xD4 <= marker <= 0xD6 then ListMark
    else if 0xA0 <= marker <= 0xAF || 0xD8 <= marker <= 0xDA then MapMark
    else if 0xB0 <= marker <= 0xBF || 0xDC <= marker <= 0xDD then StructureMark
    else match marker
      case 0xC0 => NullMark
      case 0xC1 => FloatMark
      case 0xC2 => BooleanMark
      case 0xC3 => BooleanMark
      case 0xCC => BytesMark
      case 0xCD => BytesMark
      case 0xCE => BytesMark
      case _ => ReservedMark
  }

  // ---------------------------------------------------------------- loading

  /** What loading appends to the buffer, and how it ends. A failed load leaves the bytes
      it had already written. */
  datatype Emitted = Emitted(status: Status, bytes: Octets)

  /** The structure header takes the size through an int8_t, so only the size modulo 256
      is checked and written. */
  function StructureHeader(code: int, size: nat): (e: Emitted)
  {
    var size8 := AsInt8(size);
    if code < 0 || size8 < 0 || size8 >= 0x10 then Emitted(Violation, [])
    else Emitted(Success, [0xB0 + size8, AsInt8(code) % 256])
  }

  function Emit(check: Check, v: Value): (e: Emitted)
    requires Representable(v)
    decreases v
  {
    match v
    case Null => Emitted(Success, [0xC0])
    case Boolean(flag) => Emitted(Success, [if flag then 0xC3 else 0xC2])
    case Integer(n) => Emitted(Success, IntegerBytes(n))
    case Float(bits) => Emitted(Success, [0xC1] + Reversed(bits))
    case String(text) => Emitted(Success, SizeHeader(StringFamily, |text|) + text)
    case Bytes(octets) => Emitted(Success, SizeHeader(BytesFamily, |octets|) + octets)
    case List(items) => Prefixed(SizeHeader(ListFamily, |items|), EmitAll(check, items))
    case Dictionary(pairs) => Prefixed(SizeHeader(MapFamily, |pairs| / 2), EmitAll(check, pairs))
    case Structure(code, fields) =>
      if !Accepts(check, code) then Emitted(UnsupportedType, [])
      else
        var header := StructureHeader(code, |fields|);
        if header.status != Success then header
        else Prefixed(header.bytes, EmitAll(check, fields))
  }

  function Prefixed(bytes: Octets, e: Emitted): Emitted
  {
    Emitted(e.status, bytes + e.bytes)
  }

  /** Loads values one after another and stops at the first that fails. */
  function EmitAll(check: Check, vs: seq<Value>): (e: Emitted)
    requires AllRepresentable(vs)
    decreases vs
  {
    if vs == [] then Emitted(Success, [])
    else
      var first := Emit(check, vs[0]);
      if first.status != Success then first
      else Prefixed(first.bytes, EmitAll(check, vs[1..]))
  }

  // ---------------------------------------------------------------- unloading

  /** The outcome of unloading one value: how the call ended, what the target value then
      holds, and the input left over. Undefined stands for a run that has used a local
      variable no read has filled, because the input ended too early, or a negative string
      size. */
  datatype Parse = Parsed(status: Status, value: Value, rest: Octets) | Undefined

  datatype ParseMany = ParsedMany(status: Status, values: seq<Value>, rest: Octets) | UndefinedMany

  function DecodeInteger(marker: Byte, input: Octets): (p: Parse)
    requires MarkerTypeOf(marker) == IntegerMark
    ensures p.Parsed? ==> |p.rest| <= |input| && p.status == Success && p.value.Integer?
  {
    if marker < 0x80 then Parsed(Success, Integer(marker), input)
    else if marker >= 0xF0 then Parsed(Success, Integer(marker - 0x100), input)
    else
      var width := IntegerWidth(marker);
      if |input| < width then Undefined
      else Parsed(Success, Integer(SignedBEValue(input[..width])), input[width..])
  }

  /** Strings and bytes: a size and then that many bytes. */
  function DecodeText(f: Family, marker: Byte, input: Octets, target: Value): (p: Parse)
    ensures p.Parsed? ==> |p.rest| <= |input|
  {
    match ReadSize(f, marker, input)
    case WrongMarker => Parsed(UnexpectedMarker, target, input)
    case Undersized => Undefined
    case Sized(n, body) =>
      if n < 0 || |body| < n then Undefined
      else Parsed(Success, if f == BytesFamily then Bytes(body[..n]) else String(body[..n]), body[n..])
  }

  function Decode(check: Check, target: Value, input: Octets): (p: Parse)
    ensures p.Parsed? ==> |p.rest| <= |input|
    decreases |input|, 1, 0
  {
    if input == [] then Undefined
    else
      var marker, body := input[0], input[1..];
      match MarkerTypeOf(marker)
      case NullMark => Parsed(Success, Null, body)
      case BooleanMark => Parsed(Success, Boolean(marker == 0xC3), body)
      case IntegerMark => DecodeInteger(marker, body)
      case FloatMark => if |body| < 8 then Undefined else Parsed(Success, Float(Reversed(body[..8])), body[8..])
      case StringMark => DecodeText(StringFamily, marker, body, target)
      case BytesMark => DecodeText(BytesFamily, marker, body, target)
      case ListMark => DecodeSequence(check, ListFamily, marker, body, target)
      case MapMark => DecodeSequence(check, MapFamily, marker, body, target)
      case StructureMark => DecodeStructure(check, marker, body, target)
      case ReservedMark => Parsed(UnexpectedMarker, target, input)
  }

  /** Lists and dictionaries: a size, and then the elements, until one fails. */
  function DecodeSequence(check: Check, f: Family, marker: Byte, input: Octets, target: Value): (p: Parse)
    ensures p.Parsed? ==> |p.rest| <= |input|
    decreases |input| + 1, 0, 0
  {
    match ReadSize(f, marker, input)
    case WrongMarker => Parsed(UnexpectedMarker, target, input)
    case Undersized => Undefined
    case Sized(n, elements) =>
      if n < 0 then Parsed(Violation, target, elements)
      else Collected(f, DecodeMany(check, true, Slots(f, target, n), elements))
  }

  /** Structures: a one-byte code, and then the fields, whether or not they fail. */
  function DecodeStructure(check: Check, marker: Byte, input: Octets, target: Value): (p: Parse)
    ensures p.Parsed? ==> |p.rest| <= |input|
    decreases |input| + 1, 0, 0
  {
    if !(0xB0 <= marker <= 0xBF) then Parsed(UnexpectedMarker, target, input)
    else if input == [] then Undefined
    else
      var code := SignedBEValue(input[..1]);
      if !Accepts(check, code) then Parsed(UnexpectedMarker, target, input[1..])
      else StructureOf(code, DecodeMany(check, false, Nulls(marker - 0xB0), input[1..]))
  }

  /** A structure once its fields have been gone through, whatever became of them. */
  function StructureOf(code: int, p: ParseMany): Parse
  {
    match p
    case UndefinedMany => Undefined
    case ParsedMany(_, values, rest) => Parsed(Success, Structure(code, values), rest)
  }

  /** A list or dictionary once its elements have been unloaded. */
  function Collected(f: Family, p: ParseMany): Parse
  {
    match p
    case UndefinedMany => Undefined
    case ParsedMany(status, values, rest) =>
      Parsed(status, if f == MapFamily then Dictionary(values) else List(values), rest)
  }

  /** What a target offers its elements once it has been formatted for n of them. */
  function Slots(f: Family, target: Value, n: nat): (r: seq<Value>)
    ensures |r| == if f == MapFamily then 2 * n else n
  {
    if f == MapFamily then DictionarySlots(target, n) else ListSlots(target, n)
  }

  /** Unloads one value into each target. A strict run (list and dictionary) stops at the
      first failure; a lenient one (structure fields) ignores how each field ended. */
  function DecodeMany(check: Check, strict: bool, targets: seq<Value>, input: Octets): (p: ParseMany)
    ensures p.ParsedMany? ==> |p.rest| <= |input| && |p.values| == |targets|
    decreases |input|, 2, |targets|
  {
    if targets == [] then ParsedMany(Success, [], input)
    else match Decode(check, targets[0], input)
      case Undefined => UndefinedMany
      case Parsed(status, value, rest) =>
        if strict && status != Success then ParsedMany(status, [value] + targets[1..], rest)
        else PrependParsed([value], DecodeMany(check, strict, targets[1..], rest))
  }

  function PrependParsed(values: seq<Value>, p: ParseMany): (r: ParseMany)
    ensures p.UndefinedMany? <==> r.UndefinedMany?
    ensures p.ParsedMany? ==> r == ParsedMany(p.status, values + p.values, p.rest)
  {
    match p
    case UndefinedMany => UndefinedMany
    case ParsedMany(status, more, rest) => ParsedMany(status, values + more, rest)
  }

  // ---------------------------------------------------------------- one step of Decode

  lemma DecodeIntegerStep(check: Check, target: Value, input: Octets)
    requires input != [] && MarkerTypeOf(input[0]) == IntegerMark
    ensures Decode(check, target, input) == DecodeInteger(input[0], input[1..])
  {
  }

  lemma DecodeTextStep(check: Check, target: Value, input: Octets, f: Family)
    requires input != []
    requires (f == StringFamily && MarkerTypeOf(input[0]) == StringMark) ||
             (f == BytesFamily && MarkerTypeOf(input[0]) == BytesMark)
    ensures Decode(check, target, input) == DecodeText(f, input[0], input[1..], target)
  {
  }

  lemma DecodeSequenceStep(check: Check, target: Value, input: Octets, f: Family, n: int, elements: Octets)
    requires input != [] && n >= 0
    requires (f == ListFamily && MarkerTypeOf(input[0]) == ListMark) ||
             (f == MapFamily && MarkerTypeOf(input[0]) == MapMark)
    requires ReadSize(f, input[0], input[1..]) == Sized(n, elements)
    ensures Decode(check, target, input) == Collected(f, DecodeMany(check, true, Slots(f, target, n), elements))
  {
  }

  /** A structure with a short marker: refused by its code, or its fields and no error. */
  lemma DecodeStructureCases(check: Check, target: Value, input: Octets, size: nat, code: int)
    requires |input| >= 2 && size < 0x10 && input[0] == 0xB0 + size
    requires SignedBEValue(input[1..][..1]) == code
    ensures Decode(check, target, input) ==
            if !Accepts(check, code) then Parsed(UnexpectedMarker, target, input[1..][1..])
            else StructureOf(code, DecodeMany(check, false, Nulls(size), input[1..][1..]))
  {
  }

  lemma DecodeManyStep(check: Check, strict: bool, targets: seq<Value>, input: Octets, v: Value, rest: Octets)
    requires targets != [] && Decode(check, targets[0], input) == Parsed(Success, v, rest)
    ensures DecodeMany(check, strict, targets, input) ==
            PrependParsed([v], DecodeMany(check, strict, targets[1..], rest))
  {
  }

  // ---------------------------------------------------------------- runs one after another

  lemma {:induction false} EmitAllConcat(check: Check, vs: seq<Value>, ws: seq<Value>)
    requires AllRepresentable(vs) && AllRepresentable(ws) && EmitAll(check, vs).status == Success
    ensures EmitAll(check, vs + ws) == Prefixed(EmitAll(check, vs).bytes, EmitAll(check, ws))
  {
    if vs == [] {
      assert vs + ws == ws;
    } else {
      EmitAllConcat(check, vs[1..], ws);
      assert vs + ws == [vs[0]] + (vs[1..] + ws);
      Associative(Emit(check, vs[0]).bytes, EmitAll(check, vs[1..]).bytes, EmitAll(check, ws).bytes);
    }
  }

  lemma PrependTwice(a: seq<Value>, b: seq<Value>, p: ParseMany)
    ensures PrependParsed(a, PrependParsed(b, p)) == PrependParsed(a + b, p)
  {
    if p.ParsedMany? {
      assert a + (b + p.values) == a + b + p.values;
    }
  }

  /** A run over some targets and then over others. */
  lemma {:induction false} DecodeManyConcat(check: Check, strict: bool, a: seq<Value>, b: seq<Value>, input: Octets,
                                            vs: seq<Value>, middle: Octets)
    requires DecodeMany(check, strict, a, input) == ParsedMany(Success, vs, middle)
    ensures DecodeMany(check, strict, a + b, input) == PrependParsed(vs, DecodeMany(check, strict, b, middle))
    decreases |a|
  {
    var p := DecodeMany(check, strict, b, middle);
    if a == [] {
      assert a + b == b;
      assert p.ParsedMany? ==> [] + p.values == p.values;
    } else {
      var first := Decode(check, a[0], input);
      var others := DecodeMany(check, strict, a[1..], first.rest);
      assert vs == [first.value] + others.values;
      DecodeManyConcat(check, strict, a[1..], b, first.rest, others.values, middle);
      assert (a + b)[1..] == a[1..] + b;
      PrependTwice([first.value], others.values, p);
    }
  }
}
