/** When no bytes that unload to a value are fewer than those load writes for it. */
module Shortest {
  import opened Bytes
  import opened Values
  import opened Signatures
  import opened PackStream
  import opened RoundTrip

  // ---------------------------------------------------------------- the condition

  /** A reserved marker is refused without being taken from the input, so a run of fields
      that comes upon one stays there. */
  predicate Stuck(rest: Octets)
  {
    rest != [] && MarkerTypeOf(rest[0]) == ReservedMark
  }

  /** The elements of a list or dictionary: what a failing unload may leave half done. */
  function Elements(v: Value): (es: seq<Value>)
    ensures forall e :: e in es ==> e < v
  {
    match v
    case List(items) => items
    case Dictionary(pairs) => pairs
    case _ => []
  }

  /** A failing unload can leave the value in a null target: following last elements, the
      value ends in a null. */
  predicate Leavable(v: Value)
  {
    var es := Elements(v);
    v == Null || (es != [] && Leavable(es[|es| - 1]))
  }

  predicate LeavableRun(es: seq<Value>)
  {
    es != [] && Leavable(es[|es| - 1])
  }

  /** A failing unload can leave the value in fewer bytes than load writes. Where nothing
      has to follow it (last), it may stop at a reserved marker and take nothing for the null;
      elsewhere a byte is saved only when a null element follows the one that fails. */
  predicate LeftShorter(v: Value, last: bool)
    decreases v
  {
    if last then Leavable(v)
    else
      var es := Elements(v);
      es != [] && (LeftShorter(es[|es| - 1], false) ||
                   (|es| >= 2 && es[|es| - 1] == Null && Leavable(es[|es| - 2])))
  }

  predicate LeftShorterRun(es: seq<Value>)
  {
    es != [] && (LeftShorter(es[|es| - 1], false) ||
                 (|es| >= 2 && es[|es| - 1] == Null && Leavable(es[|es| - 2])))
  }

  /** No field of any structure inside can be had cheaper by letting it fail. Last says
      that nothing has to follow the value. */
  predicate Tight(v: Value, last: bool)
    decreases v, 0
  {
    if v.Structure? then
      forall i :: 0 <= i < |v.fields| ==> FieldTight(v.fields[i], last && i == |v.fields| - 1)
    else
      forall i :: 0 <= i < |Elements(v)| ==> Tight(Elements(v)[i], last && i == |Elements(v)| - 1)
  }

  predicate FieldTight(v: Value, last: bool)
    decreases v, 1
  {
    Tight(v, last) && !LeftShorter(v, last)
  }

  predicate AllTight(vs: seq<Value>, last: bool)
  {
    forall i :: 0 <= i < |vs| ==> Tight(vs[i], last && i == |vs| - 1)
  }

  predicate FieldsTight(vs: seq<Value>, last: bool)
  {
    forall i :: 0 <= i < |vs| ==> FieldTight(vs[i], last && i == |vs| - 1)
  }

  // ---------------------------------------------------------------- values that meet it

  predicate StructureFree(v: Value)
  {
    !v.Structure? && forall c :: c in Children(v) ==> StructureFree(c)
  }

  lemma {:induction false} StructureFreeIsTight(v: Value, last: bool)
    requires StructureFree(v)
    ensures Tight(v, last)
    decreases v
  {
    forall i | 0 <= i < |Elements(v)|
      ensures Tight(Elements(v)[i], last && i == |Elements(v)| - 1)
    {
      StructureFreeIsTight(Children(v)[i], last && i == |Elements(v)| - 1);
    }
  }

  /** No structure inside has a null, a list or a dictionary among its fields, as holds of
      points, dates, times and durations. */
  predicate PlainFields(v: Value)
  {
    (v.Structure? ==> forall f :: f in v.fields ==> !f.Null? && !f.List? && !f.Dictionary?) &&
    forall c :: c in Children(v) ==> PlainFields(c)
  }

  lemma {:induction false} PlainFieldsAreTight(v: Value, last: bool)
    requires PlainFields(v)
    ensures Tight(v, last)
    decreases v
  {
    forall i | 0 <= i < |Children(v)|
      ensures Tight(Children(v)[i], last && i == |Children(v)| - 1)
    {
      PlainFieldsAreTight(Children(v)[i], last && i == |Children(v)| - 1);
    }
    if v.Structure? {
      forall i | 0 <= i < |v.fields|
        ensures FieldTight(v.fields[i], last && i == |v.fields| - 1)
      {
        assert v.fields[i] in v.fields && Children(v)[i] == v.fields[i];
      }
    } else {
      assert Elements(v) == Children(v);
    }
  }

  // ---------------------------------------------------------------- headers, integers, text

  lemma ShortestHeader(f: Family, marker: Byte, body: Octets, n: int, rest: Octets)
    requires ReadSize(f, marker, body) == Sized(n, rest) && n >= 0
    ensures |SizeHeader(f, n)| <= 1 + |body| - |rest|
  {
    RangeValues();
  }

  lemma ShortestInteger(marker: Byte, body: Octets, n: int, rest: Octets)
    requires MarkerTypeOf(marker) == IntegerMark && DecodeInteger(marker, body) == Parsed(Success, Integer(n), rest)
    requires INT64_MIN <= n <= INT64_MAX
    ensures |IntegerBytes(n)| <= 1 + |body| - |rest|
  {
    RangeValues();
  }

  lemma ShortestText(writer: Check, f: Family, target: Value, v: Value, marker: Byte, body: Octets, rest: Octets)
    requires f == StringFamily || f == BytesFamily
    requires DecodeText(f, marker, body, target) == Parsed(Success, v, rest) && Representable(v)
    ensures |Emit(writer, v).bytes| <= 1 + |body| - |rest|
  {
    var n, text := ReadSize(f, marker, body).size, ReadSize(f, marker, body).rest;
    ShortestHeader(f, marker, body, n, text);
  }

  // ---------------------------------------------------------------- what failures leave

  lemma StuckTakesNothing(reader: Check, target: Value, input: Octets)
    requires Stuck(input)
    ensures Decode(reader, target, input) == Parsed(UnexpectedMarker, target, input)
  {
  }

  lemma {:induction false} StuckRun(reader: Check, n: nat, input: Octets)
    requires Stuck(input)
    ensures DecodeMany(reader, false, Nulls(n), input) == ParsedMany(Success, Nulls(n), input)
  {
    if n > 0 {
      StuckTakesNothing(reader, Null, input);
      StuckRun(reader, n - 1, input);
      assert Nulls(n)[1..] == Nulls(n - 1) && Nulls(n) == [Null] + Nulls(n - 1);
    }
  }

  /** A failure in a null target: nothing came of it, or the elements of a list or dictionary
      were begun. */
  lemma FailureFromNull(reader: Check, input: Octets)
    requires var p := Decode(reader, Null, input); p.Parsed? && p.status != Success
    ensures var p := Decode(reader, Null, input);
            input != [] &&
            if p.value == Null then |p.rest| < |input| || Stuck(p.rest)
            else
              exists f: Family, n: nat, body: Octets ::
                IsSequence(f, input[0]) && ReadSize(f, input[0], input[1..]) == Sized(n, body) &&
                Collected(f, DecodeMany(reader, true, Nulls(Slotted(f, n)), body)) == p
  {
    var p := Decode(reader, Null, input);
    if p.value != Null {
      var f := if MarkerTypeOf(input[0]) == ListMark then ListFamily else MapFamily;
      var size := ReadSize(f, input[0], input[1..]);
      assert IsSequence(f, input[0]) && Slots(f, Null, size.size) == Nulls(Slotted(f, size.size));
    }
  }

  predicate IsSequence(f: Family, marker: Byte)
  {
    (f == ListFamily && MarkerTypeOf(marker) == ListMark) || (f == MapFamily && MarkerTypeOf(marker) == MapMark)
  }

  function Slotted(f: Family, n: nat): nat
  {
    if f == MapFamily then 2 * n else n
  }

  lemma {:induction false} LeftIsLeavable(reader: Check, input: Octets)
    requires var p := Decode(reader, Null, input); p.Parsed? && p.status != Success
    ensures Leavable(Decode(reader, Null, input).value)
    decreases |input|, 0
  {
    var p := Decode(reader, Null, input);
    FailureFromNull(reader, input);
    if p.value != Null {
      var f: Family, n: nat, body: Octets :|
        IsSequence(f, input[0]) && ReadSize(f, input[0], input[1..]) == Sized(n, body) &&
        Collected(f, DecodeMany(reader, true, Nulls(Slotted(f, n)), body)) == p;
      LeftRunIsLeavable(reader, Slotted(f, n), body);
    }
  }

  lemma {:induction false} LeftRunIsLeavable(reader: Check, n: nat, input: Octets)
    requires var p := DecodeMany(reader, true, Nulls(n), input); p.ParsedMany? && p.status != Success
    ensures LeavableRun(DecodeMany(reader, true, Nulls(n), input).values)
    decreases |input|, n + 1
  {
    var first := Decode(reader, Null, input);
    assert Nulls(n)[1..] == Nulls(n - 1);
    if first.status != Success {
      LeftIsLeavable(reader, input);
    } else {
      LeftRunIsLeavable(reader, n - 1, first.rest);
    }
  }

  // ---------------------------------------------------------------- no form is shorter

  /** The first value of a run and what the others were read from. */
  lemma DecodeManyHead(reader: Check, strict: bool, targets: seq<Value>, input: Octets, vs: seq<Value>, rest: Octets)
    returns (first: Parse)
    requires vs != [] && DecodeMany(reader, strict, targets, input) == ParsedMany(Success, vs, rest)
    ensures targets != [] && first == Decode(reader, targets[0], input) && first.Parsed? && first.value == vs[0]
    ensures strict ==> first.status == Success
    ensures DecodeMany(reader, strict, targets[1..], first.rest) == ParsedMany(Success, vs[1..], rest)
    ensures |first.rest| <= |input|
  {
    first := Decode(reader, targets[0], input);
  }

  /** Where more values follow in a strict run, the input is not at a reserved marker. */
  lemma NotStuckInside(reader: Check, targets: seq<Value>, input: Octets, status: Status, vs: seq<Value>, rest: Octets)
    requires targets != [] && DecodeMany(reader, true, targets, input) == ParsedMany(status, vs, rest)
    requires status == Success || !Stuck(rest)
    ensures !Stuck(input)
  {
    if Stuck(input) {
      StuckTakesNothing(reader, targets[0], input);
    }
  }

  lemma EmitAllFirst(writer: Check, vs: seq<Value>)
    requires AllRepresentable(vs) && AllLoad(writer, vs) && vs != []
    ensures Loads(writer, vs[0]) && AllLoad(writer, vs[1..])
    ensures |EmitAll(writer, vs).bytes| == |Emit(writer, vs[0]).bytes| + |EmitAll(writer, vs[1..]).bytes|
  {
  }

  /** Any input that unload accepts as a tight value is at least as long as what load
      writes for it. */
  lemma {:induction false} LoadIsShortest(writer: Check, reader: Check, v: Value, target: Value, input: Octets,
                                          rest: Octets)
    requires Representable(v) && Loads(writer, v) && Tight(v, Stuck(rest))
    requires Decode(reader, target, input) == Parsed(Success, v, rest)
    ensures |Emit(writer, v).bytes| <= |input| - |rest|
    decreases |input|, 0
  {
    var marker, body := input[0], input[1..];
    match MarkerTypeOf(marker)
    case IntegerMark =>
      DecodeIntegerStep(reader, target, input);
      ShortestInteger(marker, body, v.number, rest);
    case StringMark =>
      DecodeTextStep(reader, target, input, StringFamily);
      ShortestText(writer, StringFamily, target, v, marker, body, rest);
    case BytesMark =>
      DecodeTextStep(reader, target, input, BytesFamily);
      ShortestText(writer, BytesFamily, target, v, marker, body, rest);
    case ListMark => ShortestSequence(writer, reader, ListFamily, v, target, input, rest);
    case MapMark => ShortestSequence(writer, reader, MapFamily, v, target, input, rest);
    case StructureMark => ShortestStructure(writer, reader, v, target, input, rest);
    case _ =>
  }

  lemma {:induction false} ShortestSequence(writer: Check, reader: Check, f: Family, v: Value, target: Value,
                                            input: Octets, rest: Octets)
    requires input != [] && IsSequence(f, input[0])
    requires Representable(v) && Loads(writer, v) && Tight(v, Stuck(rest))
    requires Decode(reader, target, input) == Parsed(Success, v, rest)
    ensures |Emit(writer, v).bytes| <= |input| - |rest|
    decreases |input|, 0, 0
  {
    var size := ReadSize(f, input[0], input[1..]);
    SequenceMustBeSized(reader, f, v, target, input, rest);
    DecodeSequenceStep(reader, target, input, f, size.size, size.rest);
    ShortestHeader(f, input[0], input[1..], size.size, size.rest);
    ShortestAll(writer, reader, Elements(v), Slots(f, target, size.size), size.rest, rest);
  }

  lemma SequenceMustBeSized(reader: Check, f: Family, v: Value, target: Value, input: Octets, rest: Octets)
    requires input != [] && IsSequence(f, input[0])
    requires Decode(reader, target, input) == Parsed(Success, v, rest)
    ensures var size := ReadSize(f, input[0], input[1..]); size.Sized? && size.size >= 0
  {
  }

  lemma {:induction false} ShortestAll(writer: Check, reader: Check, vs: seq<Value>, targets: seq<Value>,
                                       input: Octets, rest: Octets)
    requires AllRepresentable(vs) && AllLoad(writer, vs) && AllTight(vs, Stuck(rest))
    requires DecodeMany(reader, true, targets, input) == ParsedMany(Success, vs, rest)
    ensures |EmitAll(writer, vs).bytes| <= |input| - |rest|
    decreases |input|, |targets| + 1
  {
    if vs != [] {
      EmitAllFirst(writer, vs);
      var first := DecodeManyHead(reader, true, targets, input, vs, rest);
      if |vs| > 1 {
        NotStuckInside(reader, targets[1..], first.rest, Success, vs[1..], rest);
      }
      assert Tight(vs[0], Stuck(first.rest));
      LoadIsShortest(writer, reader, vs[0], targets[0], input, first.rest);
      TightTail(vs, Stuck(rest));
      ShortestAll(writer, reader, vs[1..], targets[1..], first.rest, rest);
    }
  }

  lemma TightTail(vs: seq<Value>, last: bool)
    requires vs != []
    ensures AllTight(vs, last) ==> AllTight(vs[1..], last)
    ensures FieldsTight(vs, last) ==> FieldsTight(vs[1..], last)
  {
    if AllTight(vs, last) {
      forall i | 0 <= i < |vs[1..]|
        ensures Tight(vs[1..][i], last && i == |vs[1..]| - 1)
      {
        assert Tight(vs[i + 1], last && i + 1 == |vs| - 1);
      }
    }
    if FieldsTight(vs, last) {
      forall i | 0 <= i < |vs[1..]|
        ensures FieldTight(vs[1..][i], last && i == |vs[1..]| - 1)
      {
        assert FieldTight(vs[i + 1], last && i + 1 == |vs| - 1);
      }
    }
  }

  lemma StructureParts(writer: Check, v: Value)
    requires v.Structure? && Representable(v) && Loads(writer, v)
    ensures AllRepresentable(v.fields) && AllLoad(writer, v.fields)
    ensures |Emit(writer, v).bytes| == 2 + |EmitAll(writer, v.fields).bytes|
  {
    assert Children(v) == v.fields;
  }

  lemma {:induction false} ShortestStructure(writer: Check, reader: Check, v: Value, target: Value, input: Octets,
                                             rest: Octets)
    requires input != [] && MarkerTypeOf(input[0]) == StructureMark
    requires Representable(v) && Loads(writer, v) && Tight(v, Stuck(rest))
    requires Decode(reader, target, input) == Parsed(Success, v, rest)
    ensures |Emit(writer, v).bytes| <= |input| - |rest|
    decreases |input|, 0, 0
  {
    AcceptedStructure(reader, target, input, v, rest);
    StructureParts(writer, v);
    ShortestFields(writer, reader, v.fields, input[1..][1..], rest);
  }

  lemma StuckFieldsAreNull(reader: Check, input: Octets, vs: seq<Value>, rest: Octets)
    requires vs != [] && DecodeMany(reader, false, Nulls(|vs|), input) == ParsedMany(Success, vs, rest)
    ensures Stuck(input) ==> vs[|vs| - 1] == Null && Stuck(rest)
  {
    if Stuck(input) {
      StuckRun(reader, |vs|, input);
    }
  }

  lemma {:induction false} LenientRunSucceeds(reader: Check, targets: seq<Value>, input: Octets)
    requires DecodeMany(reader, false, targets, input).ParsedMany?
    ensures DecodeMany(reader, false, targets, input).status == Success
    decreases |targets|
  {
    if targets != [] {
      LenientRunSucceeds(reader, targets[1..], Decode(reader, targets[0], input).rest);
    }
  }

  /** An accepted structure: a short marker, a code, and whatever came of the fields. */
  lemma AcceptedStructure(reader: Check, target: Value, input: Octets, v: Value, rest: Octets)
    requires input != [] && MarkerTypeOf(input[0]) == StructureMark
    requires Decode(reader, target, input) == Parsed(Success, v, rest)
    ensures |input| >= 2 && v.Structure? && Accepts(reader, v.code) && |v.fields| < 0x10
    ensures DecodeMany(reader, false, Nulls(|v.fields|), input[1..][1..]) == ParsedMany(Success, v.fields, rest)
  {
    assert Decode(reader, target, input) == DecodeStructure(reader, input[0], input[1..], target);
    LenientRunSucceeds(reader, Nulls(input[0] - 0xB0), input[1..][1..]);
  }

  lemma {:induction false} ShortestFields(writer: Check, reader: Check, vs: seq<Value>, input: Octets, rest: Octets)
    requires AllRepresentable(vs) && AllLoad(writer, vs) && FieldsTight(vs, Stuck(rest))
    requires DecodeMany(reader, false, Nulls(|vs|), input) == ParsedMany(Success, vs, rest)
    ensures |EmitAll(writer, vs).bytes| <= |input| - |rest|
    decreases |input|, |vs| + 1
  {
    if vs != [] {
      EmitAllFirst(writer, vs);
      var first := DecodeManyHead(reader, false, Nulls(|vs|), input, vs, rest);
      assert Nulls(|vs|)[1..] == Nulls(|vs| - 1);
      assert FieldTight(vs[|vs| - 1], Stuck(rest));
      if |vs| > 1 {
        StuckFieldsAreNull(reader, first.rest, vs[1..], rest);
      }
      assert FieldTight(vs[0], Stuck(first.rest));
      if first.status == Success {
        LoadIsShortest(writer, reader, vs[0], Null, input, first.rest);
      } else {
        LeftIsNotShorter(writer, reader, vs[0], input);
      }
      TightTail(vs, Stuck(rest));
      ShortestFields(writer, reader, vs[1..], first.rest, rest);
    }
  }

  /** A field that a failure leaves takes no fewer bytes than load writes for it. */
  lemma {:induction false} LeftIsNotShorter(writer: Check, reader: Check, v: Value, input: Octets)
    requires Representable(v) && Loads(writer, v)
    requires var p := Decode(reader, Null, input);
             p.Parsed? && p.status != Success && p.value == v && FieldTight(v, Stuck(p.rest))
    ensures |Emit(writer, v).bytes| <= |input| - |Decode(reader, Null, input).rest|
    decreases |input|, 0
  {
    var p := Decode(reader, Null, input);
    LeftIsLeavable(reader, input);
    FailureFromNull(reader, input);
    if v != Null {
      var f: Family, n: nat, body: Octets :|
        IsSequence(f, input[0]) && ReadSize(f, input[0], input[1..]) == Sized(n, body) &&
        Collected(f, DecodeMany(reader, true, Nulls(Slotted(f, n)), body)) == p;
      ShortestHeader(f, input[0], input[1..], n, body);
      LeftRunIsNotShorter(writer, reader, Elements(v), p.status, body, p.rest);
    }
  }

  /** The first value of a failing run over null targets, and what became of the others. */
  lemma FailingRunHead(reader: Check, vs: seq<Value>, status: Status, input: Octets, rest: Octets) returns (first: Parse)
    requires DecodeMany(reader, true, Nulls(|vs|), input) == ParsedMany(status, vs, rest) && status != Success
    ensures vs != [] && first == Decode(reader, Null, input) && first.Parsed? && first.value == vs[0]
    ensures |first.rest| <= |input|
    ensures if first.status != Success then first.rest == rest && vs[1..] == Nulls(|vs| - 1)
            else |vs| > 1 && DecodeMany(reader, true, Nulls(|vs| - 1), first.rest) == ParsedMany(status, vs[1..], rest)
  {
    first := Decode(reader, Null, input);
    assert Nulls(|vs|)[1..] == Nulls(|vs| - 1);
  }

  lemma LeftShorterTail(vs: seq<Value>)
    requires |vs| > 1 && LeftShorterRun(vs[1..])
    ensures LeftShorterRun(vs)
  {
  }

  lemma EmitOne(writer: Check, vs: seq<Value>)
    requires |vs| == 1 && AllRepresentable(vs) && AllLoad(writer, vs)
    ensures Loads(writer, vs[0]) && |EmitAll(writer, vs).bytes| == |Emit(writer, vs[0]).bytes|
  {
  }

  lemma {:induction false} LeftRunIsNotShorter(writer: Check, reader: Check, vs: seq<Value>, status: Status,
                                               input: Octets, rest: Octets)
    requires AllRepresentable(vs) && AllLoad(writer, vs) && AllTight(vs, false) && !LeftShorterRun(vs)
    requires DecodeMany(reader, true, Nulls(|vs|), input) == ParsedMany(status, vs, rest)
    requires status != Success && !Stuck(rest)
    ensures |EmitAll(writer, vs).bytes| <= |input| - |rest|
    decreases |input|, |vs| + 1
  {
    hide Decode, DecodeMany, Emit, EmitAll, Leavable;
    var first := FailingRunHead(reader, vs, status, input, rest);
    assert Tight(vs[0], false);
    EmitAllFirst(writer, vs);
    if first.status != Success {
      LeftIsLeavable(reader, input);
      LastTwo(vs);
      EmitOne(writer, vs);
      LeftIsNotShorter(writer, reader, vs[0], input);
    } else {
      NotStuckInside(reader, Nulls(|vs| - 1), first.rest, status, vs[1..], rest);
      LoadIsShortest(writer, reader, vs[0], Null, input, first.rest);
      TightTail(vs, false);
      if LeftShorterRun(vs[1..]) {
        LeftShorterTail(vs);
      }
      LeftRunIsNotShorter(writer, reader, vs[1..], status, first.rest, rest);
    }
  }

  /** A leavable value before nulls can be left cheaper. */
  lemma LastTwo(vs: seq<Value>)
    requires vs != [] && vs[1..] == Nulls(|vs| - 1) && Leavable(vs[0])
    ensures |vs| > 1 ==> LeftShorterRun(vs)
  {
    if |vs| > 1 {
      assert vs[|vs| - 1] == vs[1..][|vs| - 2];
      assert |vs| > 2 ==> vs[|vs| - 2] == vs[1..][|vs| - 3];
    }
  }
}
