/** Unloading what was loaded: exactly which values come back. */
module RoundTrip {
  import opened Bytes
  import opened Values
  import opened Signatures
  import opened PackStream

  /** Every structure inside has fewer than 16 fields and a code the reader accepts. */
  predicate Recoverable(reader: Check, v: Value)
  {
    (v.Structure? ==> |v.fields| < 0x10 && Accepts(reader, v.code)) &&
    forall c :: c in Children(v) ==> Recoverable(reader, c)
  }

  predicate AllRecoverable(reader: Check, vs: seq<Value>)
  {
    forall v :: v in vs ==> Recoverable(reader, v)
  }

  predicate Loads(writer: Check, v: Value)
    requires Representable(v)
  {
    Emit(writer, v).status == Success
  }

  predicate AllLoad(writer: Check, vs: seq<Value>)
    requires AllRepresentable(vs)
  {
    EmitAll(writer, vs).status == Success
  }

  // ---------------------------------------------------------------- scalars

  /** A split of concatenated bytes at a known length. */
  lemma SplitAt(head: Octets, tail: Octets)
    ensures (head + tail)[..|head|] == head && (head + tail)[|head|..] == tail
  {
  }

  lemma WideInteger(n: int, tail: Octets)
    requires INT64_MIN <= n <= INT64_MAX && !(-0x10 <= n < 0x80)
    ensures var marker := IntegerBytes(n)[0];
            0xC8 <= marker <= 0xCB &&
            DecodeInteger(marker, IntegerBytes(n)[1..] + tail) == Parsed(Success, Integer(n), tail)
  {
    RangeValues();
    var marker := IntegerBytes(n)[0];
    var width := IntegerWidth(marker);
    assert IntegerBytes(n)[1..] == SignedBE(width, n);
    SignedBERoundTrip(width, n);
    SplitAt(SignedBE(width, n), tail);
  }

  lemma IntegerRoundTrip(reader: Check, n: int, target: Value, tail: Octets)
    requires INT64_MIN <= n <= INT64_MAX
    ensures Decode(reader, target, IntegerBytes(n) + tail) == Parsed(Success, Integer(n), tail)
  {
    var bytes := IntegerBytes(n);
    assert (bytes + tail)[1..] == bytes[1..] + tail;
    DecodeIntegerStep(reader, target, bytes + tail);
    if -0x10 <= n < 0x80 {
      assert bytes[1..] + tail == tail;
    } else {
      WideInteger(n, tail);
    }
  }

  lemma TextRoundTrip(reader: Check, f: Family, text: Octets, target: Value, tail: Octets)
    requires f == StringFamily || f == BytesFamily
    requires |text| <= INT32_MAX
    ensures Decode(reader, target, SizeHeader(f, |text|) + text + tail) ==
            Parsed(Success, if f == BytesFamily then Bytes(text) else String(text), tail)
  {
    var header := SizeHeader(f, |text|);
    SizeHeaderMarker(f, |text|);
    SizeHeaderRoundTrip(f, |text|, text + tail);
    OpeningByte(header, text, tail);
    SplitAt(text, tail);
    DecodeTextStep(reader, target, header + text + tail, f);
  }

  lemma ScalarRoundTrip(writer: Check, reader: Check, v: Value, target: Value, tail: Octets)
    requires v.Null? || v.Boolean? || (v.Float? && |v.bits| == 8)
    ensures Representable(v) && Decode(reader, target, Emit(writer, v).bytes + tail) == Parsed(Success, v, tail)
  {
    var bytes := Emit(writer, v).bytes;
    assert (bytes + tail)[1..] == bytes[1..] + tail;
    if v.Float? {
      assert bytes[1..] == Reversed(v.bits);
      SplitAt(Reversed(v.bits), tail);
      ReversedTwice(v.bits);
    }
  }

  lemma SizeHeaderMarker(f: Family, n: nat)
    requires n <= INT32_MAX
    ensures MarkerTypeOf(SizeHeader(f, n)[0]) ==
            match f
            case StringFamily => StringMark
            case BytesFamily => BytesMark
            case ListFamily => ListMark
            case MapFamily => MapMark
  {
  }

  // ---------------------------------------------------------------- the round trip

  /** Loading and then unloading gives the value back, consumes exactly the bytes loaded,
      and does not depend on what the target held. */
  lemma {:induction false} LoadThenUnload(writer: Check, reader: Check, v: Value, target: Value, tail: Octets)
    requires Representable(v) && Loads(writer, v) && Recoverable(reader, v)
    ensures Decode(reader, target, Emit(writer, v).bytes + tail) == Parsed(Success, v, tail)
    decreases v, 0
  {
    match v
    case Null => ScalarRoundTrip(writer, reader, v, target, tail);
    case Boolean(_) => ScalarRoundTrip(writer, reader, v, target, tail);
    case Integer(n) => IntegerRoundTrip(reader, n, target, tail);
    case Float(_) => ScalarRoundTrip(writer, reader, v, target, tail);
    case String(text) => TextRoundTrip(reader, StringFamily, text, target, tail);
    case Bytes(octets) => TextRoundTrip(reader, BytesFamily, octets, target, tail);
    case List(items) => SequenceRoundTrip(writer, reader, ListFamily, items, target, tail);
    case Dictionary(pairs) => SequenceRoundTrip(writer, reader, MapFamily, pairs, target, tail);
    case Structure(code, fields) => StructureRoundTrip(writer, reader, code, fields, target, tail);
  }

  lemma OpeningByte(header: Octets, elements: Octets, tail: Octets)
    requires header != []
    ensures var input := header + elements + tail;
            input[0] == header[0] && input[1..] == header[1..] + (elements + tail)
  {
  }

  /** The header and elements of a list or dictionary, taken apart again. */
  lemma SizedSequence(f: Family, n: nat, elements: Octets, tail: Octets)
    requires n <= INT32_MAX && (f == ListFamily || f == MapFamily)
    ensures var input := SizeHeader(f, n) + elements + tail;
            MarkerTypeOf(input[0]) == (if f == ListFamily then ListMark else MapMark) &&
            ReadSize(f, input[0], input[1..]) == Sized(n, elements + tail)
  {
    SizeHeaderMarker(f, n);
    SizeHeaderRoundTrip(f, n, elements + tail);
    OpeningByte(SizeHeader(f, n), elements, tail);
  }

  lemma StructureHeaderBytes(check: Check, code: int, size: nat)
    requires Accepts(check, code) && StructureHeader(code, size).status == Success
    ensures size % 256 < 0x10
    ensures StructureHeader(code, size).bytes == [0xB0 + size % 256, code]
    ensures SignedBEValue([code]) == code
  {
    AcceptedCodesFitOneByte(check, code);
    RangeValues();
    SignedBERoundTrip(1, code);
    assert SignedBE(1, code) == [code] by { assert BigEndian(0, 0) == []; }
  }

  lemma StructureOpening(writer: Check, code: int, fields: seq<Value>, tail: Octets)
    requires AllRepresentable(fields)
    requires Accepts(writer, code) && StructureHeader(code, |fields|).status == Success
    ensures var input := StructureHeader(code, |fields|).bytes + EmitAll(writer, fields).bytes + tail;
            |input| >= 2 && input[0] == 0xB0 + |fields| % 256 && |fields| % 256 < 0x10 &&
            SignedBEValue(input[1..][..1]) == code &&
            input[1..][1..] == EmitAll(writer, fields).bytes + tail
  {
    StructureHeaderBytes(writer, code, |fields|);
    var elements := EmitAll(writer, fields).bytes;
    OpeningByte(StructureHeader(code, |fields|).bytes, elements, tail);
    SplitAt([code], elements + tail);
  }

  /** The number a list or dictionary header carries for this many elements. */
  function Count(f: Family, vs: seq<Value>): nat
  {
    if f == MapFamily then |vs| / 2 else |vs|
  }

  lemma {:induction false} SequenceRoundTrip(writer: Check, reader: Check, f: Family, vs: seq<Value>, target: Value,
                                             tail: Octets)
    requires f == ListFamily || (f == MapFamily && |vs| % 2 == 0)
    requires AllRepresentable(vs) && AllLoad(writer, vs) && AllRecoverable(reader, vs) && Count(f, vs) <= INT32_MAX
    ensures Decode(reader, target, SizeHeader(f, Count(f, vs)) + EmitAll(writer, vs).bytes + tail) ==
            Parsed(Success, if f == MapFamily then Dictionary(vs) else List(vs), tail)
    decreases vs, 1
  {
    var elements := EmitAll(writer, vs).bytes;
    var input := SizeHeader(f, Count(f, vs)) + elements + tail;
    SizedSequence(f, Count(f, vs), elements, tail);
    LoadThenUnloadAll(writer, reader, true, vs, Slots(f, target, Count(f, vs)), tail);
    DecodeSequenceStep(reader, target, input, f, Count(f, vs), elements + tail);
  }

  lemma {:induction false} StructureRoundTrip(writer: Check, reader: Check, code: int, fields: seq<Value>,
                                              target: Value, tail: Octets)
    requires AllRepresentable(fields) && AllLoad(writer, fields) && AllRecoverable(reader, fields)
    requires Accepts(writer, code) && Accepts(reader, code) && |fields| < 0x10
    requires StructureHeader(code, |fields|).status == Success
    ensures Decode(reader, target, StructureHeader(code, |fields|).bytes + EmitAll(writer, fields).bytes + tail) ==
            Parsed(Success, Structure(code, fields), tail)
    decreases fields, 1
  {
    var input := StructureHeader(code, |fields|).bytes + EmitAll(writer, fields).bytes + tail;
    LoadThenUnloadAll(writer, reader, false, fields, Nulls(|fields|), tail);
    StructureOpening(writer, code, fields, tail);
    DecodeStructureCases(reader, target, input, |fields|, code);
  }

  lemma EmitAllStep(writer: Check, vs: seq<Value>, tail: Octets)
    requires AllRepresentable(vs) && vs != [] && AllLoad(writer, vs)
    ensures Loads(writer, vs[0]) && AllLoad(writer, vs[1..])
    ensures EmitAll(writer, vs).bytes + tail == Emit(writer, vs[0]).bytes + (EmitAll(writer, vs[1..]).bytes + tail)
  {
  }

  lemma {:induction false} LoadThenUnloadAll(writer: Check, reader: Check, strict: bool, vs: seq<Value>,
                                             targets: seq<Value>, tail: Octets)
    requires AllRepresentable(vs) && AllLoad(writer, vs) && AllRecoverable(reader, vs)
    requires |targets| == |vs|
    ensures DecodeMany(reader, strict, targets, EmitAll(writer, vs).bytes + tail) == ParsedMany(Success, vs, tail)
    decreases vs, 0
  {
    if vs == [] {
      assert EmitAll(writer, vs).bytes + tail == tail;
    } else {
      EmitAllStep(writer, vs, tail);
      var others := EmitAll(writer, vs[1..]).bytes + tail;
      LoadThenUnload(writer, reader, vs[0], targets[0], others);
      DecodeManyStep(reader, strict, targets, EmitAll(writer, vs).bytes + tail, vs[0], others);
      LoadThenUnloadAll(writer, reader, strict, vs[1..], targets[1..], tail);
    }
  }

  // ---------------------------------------------------------------- when loading succeeds

  /** Every structure inside has a code the writer accepts and a size whose low byte is
      below 16. */
  predicate Loadable(writer: Check, v: Value)
  {
    (v.Structure? ==> Accepts(writer, v.code) && |v.fields| % 0x100 < 0x10) &&
    forall c :: c in Children(v) ==> Loadable(writer, c)
  }

  lemma {:induction false} LoadsExactlyWhen(writer: Check, v: Value)
    requires Representable(v)
    ensures Loads(writer, v) <==> Loadable(writer, v)
    decreases v, 0
  {
    match v
    case List(items) => LoadsAllExactlyWhen(writer, items);
    case Dictionary(pairs) => LoadsAllExactlyWhen(writer, pairs);
    case Structure(code, fields) =>
      LoadsAllExactlyWhen(writer, fields);
      if Accepts(writer, code) {
        AcceptedCodesFitOneByte(writer, code);
      }
    case _ =>
  }

  lemma {:induction false} LoadsAllExactlyWhen(writer: Check, vs: seq<Value>)
    requires AllRepresentable(vs)
    ensures AllLoad(writer, vs) <==> forall v :: v in vs ==> Loadable(writer, v)
    decreases vs, 0
  {
    if vs != [] {
      LoadsExactlyWhen(writer, vs[0]);
      LoadsAllExactlyWhen(writer, vs[1..]);
      assert vs == [vs[0]] + vs[1..];
    }
  }

  // ---------------------------------------------------------------- what does not come back

  /** This outcome is not the value, whether or not the call reported success. */
  predicate Misread(p: Parse, v: Value, target: Value)
  {
    p.Parsed? ==> p.value != v || (p.status != Success && target != Null)
  }

  predicate MisreadMany(p: ParseMany, vs: seq<Value>, targets: seq<Value>)
  {
    p.ParsedMany? ==> p.values != vs || (p.status != Success && targets != Nulls(|vs|))
  }

  lemma {:induction false} NotRecovered(writer: Check, reader: Check, v: Value, target: Value, tail: Octets)
    requires Representable(v) && Loads(writer, v) && !Recoverable(reader, v)
    ensures Misread(Decode(reader, target, Emit(writer, v).bytes + tail), v, target)
    decreases v, 0
  {
    match v
    case List(items) => SequenceNotRecovered(writer, reader, ListFamily, items, target, tail);
    case Dictionary(pairs) => SequenceNotRecovered(writer, reader, MapFamily, pairs, target, tail);
    case Structure(code, fields) => StructureNotRecovered(writer, reader, code, fields, target, tail);
  }

  lemma {:induction false} SequenceNotRecovered(writer: Check, reader: Check, f: Family, vs: seq<Value>,
                                                target: Value, tail: Octets)
    requires f == ListFamily || (f == MapFamily && |vs| % 2 == 0)
    requires AllRepresentable(vs) && AllLoad(writer, vs) && !AllRecoverable(reader, vs) && Count(f, vs) <= INT32_MAX
    ensures Misread(Decode(reader, target, SizeHeader(f, Count(f, vs)) + EmitAll(writer, vs).bytes + tail),
                    if f == MapFamily then Dictionary(vs) else List(vs), target)
    decreases vs, 1
  {
    var elements := EmitAll(writer, vs).bytes;
    var input := SizeHeader(f, Count(f, vs)) + elements + tail;
    SizedSequence(f, Count(f, vs), elements, tail);
    NotAllRecovered(writer, reader, true, vs, Slots(f, target, Count(f, vs)), tail);
    DecodeSequenceStep(reader, target, input, f, Count(f, vs), elements + tail);
  }

  lemma {:induction false} StructureNotRecovered(writer: Check, reader: Check, code: int, fields: seq<Value>,
                                                 target: Value, tail: Octets)
    requires AllRepresentable(fields) && AllLoad(writer, fields)
    requires !(AllRecoverable(reader, fields) && Accepts(reader, code) && |fields| < 0x10)
    requires Accepts(writer, code) && StructureHeader(code, |fields|).status == Success
    ensures Misread(
              Decode(reader, target, StructureHeader(code, |fields|).bytes + EmitAll(writer, fields).bytes + tail),
              Structure(code, fields), target)
    decreases fields, 1
  {
    var input := StructureHeader(code, |fields|).bytes + EmitAll(writer, fields).bytes + tail;
    StructureOpening(writer, code, fields, tail);
    if Accepts(reader, code) && |fields| < 0x10 {
      NotAllRecovered(writer, reader, false, fields, Nulls(|fields|), tail);
    }
    DecodeStructureCases(reader, target, input, |fields| % 0x100, code);
  }

  lemma MisreadFirst(reader: Check, strict: bool, vs: seq<Value>, targets: seq<Value>, input: Octets)
    requires vs != [] && |targets| == |vs| && (strict || targets == Nulls(|vs|))
    requires Misread(Decode(reader, targets[0], input), vs[0], targets[0])
    ensures MisreadMany(DecodeMany(reader, strict, targets, input), vs, targets)
  {
  }

  lemma MisreadLater(reader: Check, strict: bool, vs: seq<Value>, targets: seq<Value>, input: Octets, rest: Octets)
    requires vs != [] && |targets| == |vs| && (strict || targets == Nulls(|vs|))
    requires Decode(reader, targets[0], input) == Parsed(Success, vs[0], rest)
    requires MisreadMany(DecodeMany(reader, strict, targets[1..], rest), vs[1..], targets[1..])
    ensures MisreadMany(DecodeMany(reader, strict, targets, input), vs, targets)
  {
    DecodeManyStep(reader, strict, targets, input, vs[0], rest);
    assert Nulls(|vs|)[1..] == Nulls(|vs| - 1);
  }

  lemma {:induction false} NotAllRecovered(writer: Check, reader: Check, strict: bool, vs: seq<Value>,
                                           targets: seq<Value>, tail: Octets)
    requires AllRepresentable(vs) && AllLoad(writer, vs) && !AllRecoverable(reader, vs)
    requires |targets| == |vs| && (strict || targets == Nulls(|vs|))
    ensures MisreadMany(DecodeMany(reader, strict, targets, EmitAll(writer, vs).bytes + tail), vs, targets)
    decreases vs, 0
  {
    EmitAllStep(writer, vs, tail);
    var input, others := EmitAll(writer, vs).bytes + tail, EmitAll(writer, vs[1..]).bytes + tail;
    if Recoverable(reader, vs[0]) {
      assert vs == [vs[0]] + vs[1..];
      LoadThenUnload(writer, reader, vs[0], targets[0], others);
      assert strict || targets[1..] == Nulls(|vs| - 1);
      NotAllRecovered(writer, reader, strict, vs[1..], targets[1..], tail);
      MisreadLater(reader, strict, vs, targets, input, others);
    } else {
      NotRecovered(writer, reader, vs[0], targets[0], others);
      MisreadFirst(reader, strict, vs, targets, input);
    }
  }

  // ---------------------------------------------------------------- main results

  /** A value that loads comes back, from every target and before every tail, exactly when
      its structures all have fewer than 16 fields and readable codes. Otherwise no target
      and no tail makes unload succeed with that value. */
  lemma ComesBackExactlyWhen(writer: Check, reader: Check, v: Value, target: Value, tail: Octets)
    requires Representable(v) && Loads(writer, v)
    ensures Recoverable(reader, v) <==>
            Decode(reader, target, Emit(writer, v).bytes + tail) == Parsed(Success, v, tail)
    ensures !Recoverable(reader, v) ==>
              var p := Decode(reader, target, Emit(writer, v).bytes + tail);
              p.Parsed? && p.status == Success ==> p.value != v
  {
    if Recoverable(reader, v) {
      LoadThenUnload(writer, reader, v, target, tail);
    } else {
      NotRecovered(writer, reader, v, target, tail);
    }
  }

  /** The encoding is self-delimiting: no loaded value is the beginning of another. */
  lemma EncodingsAreSelfDelimiting(writer: Check, reader: Check, v: Value, u: Value, s: Octets, t: Octets)
    requires Representable(v) && Loads(writer, v) && Recoverable(reader, v)
    requires Representable(u) && Loads(writer, u) && Recoverable(reader, u)
    requires Emit(writer, v).bytes + s == Emit(writer, u).bytes + t
    ensures v == u && s == t
  {
    LoadThenUnload(writer, reader, v, Null, s);
    LoadThenUnload(writer, reader, u, Null, t);
  }

  /** The size check is made on an int8_t: a point of 256 coordinates loads without an
      error and is read back as a point of none. */
  lemma OversizedStructureIsTruncated(target: Value)
    ensures var v := Structure(0x58, Nulls(256));
            Representable(v) && Loads(Writable(V3), v) &&
            Decode(Readable(V3), target, Emit(Writable(V3), v).bytes) ==
            Parsed(Success, Structure(0x58, []), EmitAll(Writable(V3), Nulls(256)).bytes)
  {
    var v := Structure(0x58, Nulls(256));
    LoadsExactlyWhen(Writable(V3), v);
    var fields := EmitAll(Writable(V3), v.fields).bytes;
    StructureOpening(Writable(V3), v.code, v.fields, []);
    assert Emit(Writable(V3), v).bytes + [] == Emit(Writable(V3), v).bytes;
    assert fields + [] == fields;
    assert DecodeMany(Readable(V3), false, Nulls(0), fields) == ParsedMany(Success, [], fields);
    DecodeStructureCases(Readable(V3), target, Emit(Writable(V3), v).bytes, 0, v.code);
  }
}
