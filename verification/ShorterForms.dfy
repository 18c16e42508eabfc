/** The other half of Shortest: values that are not tight have a shorter form. */
module ShorterForms {
  import opened Bytes
  import opened Values
  import opened Signatures
  import opened PackStream
  import opened RoundTrip
  import opened Shortest

  /** These bytes unload to the value in every target, before any tail, or before any that
      starts with a reserved marker. */
  ghost predicate Stands(reader: Check, b: Octets, v: Value, stuck: bool)
  {
    forall target, tail: Octets :: (stuck ==> Stuck(tail)) ==>
      Decode(reader, target, b + tail) == Parsed(Success, v, tail)
  }

  /** Unloading these bytes fails and leaves the value in a null target. */
  ghost predicate Leaves(reader: Check, b: Octets, v: Value, stuck: bool)
  {
    forall tail: Octets :: (stuck ==> Stuck(tail)) ==> FailsWith(Decode(reader, Null, b + tail), v, tail)
  }

  predicate FailsWith(p: Parse, v: Value, rest: Octets)
  {
    p.Parsed? && p.status != Success && p.value == v && p.rest == rest
  }

  // ---------------------------------------------------------------- one value among others

  /** A value to be loaded, with every structure inside small and readable. */
  predicate Good(writer: Check, reader: Check, v: Value)
  {
    Representable(v) && Loads(writer, v) && Recoverable(reader, v)
  }

  predicate AllGood(writer: Check, reader: Check, vs: seq<Value>)
  {
    AllRepresentable(vs) && AllLoad(writer, vs) && AllRecoverable(reader, vs)
  }

  lemma {:induction false} LoadsSplit(writer: Check, reader: Check, vs: seq<Value>, i: nat)
    requires AllGood(writer, reader, vs) && i < |vs|
    ensures AllGood(writer, reader, vs[..i]) && Good(writer, reader, vs[i]) && AllGood(writer, reader, vs[i + 1..])
    ensures |EmitAll(writer, vs).bytes| ==
            |EmitAll(writer, vs[..i]).bytes| + |Emit(writer, vs[i]).bytes| + |EmitAll(writer, vs[i + 1..]).bytes|
    decreases i
  {
    EmitAllFirst(writer, vs);
    if i > 0 {
      LoadsSplit(writer, reader, vs[1..], i - 1);
      assert vs[1..][..i - 1] == vs[..i][1..] && vs[1..][i..] == vs[i + 1..];
    }
  }

  /** The first i values as they were loaded, and then something else. */
  lemma RunUpTo(writer: Check, reader: Check, strict: bool, vs: seq<Value>, targets: seq<Value>, i: nat, input: Octets)
    requires i < |vs| == |targets| && AllGood(writer, reader, vs[..i])
    ensures DecodeMany(reader, strict, targets, EmitAll(writer, vs[..i]).bytes + input) ==
            PrependParsed(vs[..i], DecodeMany(reader, strict, targets[i..], input))
  {
    LoadThenUnloadAll(writer, reader, strict, vs[..i], targets[..i], input);
    assert targets == targets[..i] + targets[i..];
    DecodeManyConcat(reader, strict, targets[..i], targets[i..], EmitAll(writer, vs[..i]).bytes + input, vs[..i], input);
  }

  /** The bytes of a run in which value i has been replaced. */
  function Replaced(writer: Check, vs: seq<Value>, i: nat, b: Octets): Octets
    requires AllRepresentable(vs) && i < |vs|
  {
    EmitAll(writer, vs[..i]).bytes + (b + EmitAll(writer, vs[i + 1..]).bytes)
  }

  lemma RunStep(reader: Check, strict: bool, targets: seq<Value>, i: nat, input: Octets)
    requires i < |targets|
    ensures var p := Decode(reader, targets[i], input);
            p.Parsed? && (strict ==> p.status == Success) ==>
              DecodeMany(reader, strict, targets[i..], input) ==
              PrependParsed([p.value], DecodeMany(reader, strict, targets[i + 1..], p.rest))
  {
    assert targets[i..][1..] == targets[i + 1..];
  }

  /** A run with value i in another form is read back, if that form is, where it stands. */
  lemma RunWithReplaced(writer: Check, reader: Check, strict: bool, vs: seq<Value>, targets: seq<Value>, i: nat,
                        b: Octets, tail: Octets)
    requires AllGood(writer, reader, vs) && i < |vs| == |targets|
    requires var others := EmitAll(writer, vs[i + 1..]).bytes + tail;
             var p := Decode(reader, targets[i], b + others);
             p.Parsed? && p.value == vs[i] && p.rest == others && (strict ==> p.status == Success)
    ensures DecodeMany(reader, strict, targets, Replaced(writer, vs, i, b) + tail) == ParsedMany(Success, vs, tail)
  {
    hide Decode, DecodeMany, Emit, EmitAll, Recoverable, Representable;
    LoadsSplit(writer, reader, vs, i);
    var others := EmitAll(writer, vs[i + 1..]).bytes + tail;
    var front := EmitAll(writer, vs[..i]).bytes;
    Associative(front, b + EmitAll(writer, vs[i + 1..]).bytes, tail);
    Associative(b, EmitAll(writer, vs[i + 1..]).bytes, tail);
    RunUpTo(writer, reader, strict, vs, targets, i, b + others);
    LoadThenUnloadAll(writer, reader, strict, vs[i + 1..], targets[i + 1..], tail);
    RunStep(reader, strict, targets, i, b + others);
    assert vs == vs[..i] + ([vs[i]] + vs[i + 1..]);
  }

  // ---------------------------------------------------------------- forms that a failure leaves

  /** A list or dictionary, its header, and what load writes for it. */
  lemma ContainerParts(writer: Check, reader: Check, v: Value) returns (f: Family, n: nat)
    requires Good(writer, reader, v) && Elements(v) != []
    ensures f in {ListFamily, MapFamily} && n <= INT32_MAX && |Elements(v)| == Slotted(f, n)
    ensures AllGood(writer, reader, Elements(v)) && v == if f == MapFamily then Dictionary(Elements(v)) else List(Elements(v))
    ensures Emit(writer, v) == Prefixed(SizeHeader(f, n), EmitAll(writer, Elements(v)))
  {
    f := if v.List? then ListFamily else MapFamily;
    n := if v.List? then |Elements(v)| else |Elements(v)| / 2;
    assert Children(v) == Elements(v);
  }

  /** A header and any elements behind it. */
  lemma ContainerDecodes(reader: Check, f: Family, n: nat, target: Value, elements: Octets)
    requires f in {ListFamily, MapFamily} && n <= INT32_MAX
    ensures Decode(reader, target, SizeHeader(f, n) + elements) ==
            Collected(f, DecodeMany(reader, true, Slots(f, target, n), elements))
  {
    var header := SizeHeader(f, n);
    var input := header + elements;
    SizeHeaderRoundTrip(f, n, elements);
    SizeHeaderMarker(f, n);
    assert input[0] == header[0] && input[1..] == header[1..] + elements;
    DecodeSequenceStep(reader, target, input, f, n, elements);
  }

  lemma OneNull(writer: Check)
    ensures EmitAll(writer, [Null]).bytes == [0xC0] && EmitAll(writer, []).bytes == []
    ensures Emit(writer, Null).bytes == [0xC0]
  {
  }

  lemma NullLeft(reader: Check, last: bool)
    ensures Leaves(reader, if last then [] else [0xDC], Null, last)
  {
    var b: Octets := if last then [] else [0xDC];
    forall tail: Octets | last ==> Stuck(tail)
      ensures FailsWith(Decode(reader, Null, b + tail), Null, tail)
    {
      if last {
        assert b + tail == tail;
        StuckTakesNothing(reader, Null, tail);
      } else {
        assert (b + tail)[1..] == tail;
      }
    }
  }

  /** A run that fails at element k, behind which only nulls are left. */
  lemma RunLeft(writer: Check, reader: Check, vs: seq<Value>, k: nat, b: Octets, tail: Octets)
    requires AllGood(writer, reader, vs) && k < |vs| && (forall j :: k < j < |vs| ==> vs[j] == Null)
    requires FailsWith(Decode(reader, Null, b + tail), vs[k], tail)
    ensures var p := DecodeMany(reader, true, Nulls(|vs|), EmitAll(writer, vs[..k]).bytes + (b + tail));
            p.ParsedMany? && p.status != Success && p.values == vs && p.rest == tail
  {
    LoadsSplit(writer, reader, vs, k);
    RunUpTo(writer, reader, true, vs, Nulls(|vs|), k, b + tail);
    var p := Decode(reader, Null, b + tail);
    var left := [p.value] + Nulls(|vs|)[k..][1..];
    assert DecodeMany(reader, true, Nulls(|vs|)[k..], b + tail) == ParsedMany(p.status, left, tail);
    assert vs[..k] + left == vs;
  }

  /** A form in which a failure leaves a leavable value: no longer than what load writes, and
      shorter where LeftShorter says so. */
  lemma {:induction false} LeavingForm(writer: Check, reader: Check, v: Value, last: bool) returns (b: Octets)
    requires Good(writer, reader, v) && Leavable(v)
    ensures Leaves(reader, b, v, last) && |b| <= |Emit(writer, v).bytes|
    ensures LeftShorter(v, last) ==> |b| < |Emit(writer, v).bytes|
    decreases v
  {
    if v == Null {
      b := if last then [] else [0xDC];
      NullLeft(reader, last);
    } else {
      hide Decode, DecodeMany, Emit, EmitAll, Recoverable, Representable, Leavable, LeftShorter;
      var es, k := Elements(v), FailAt(v, last);
      var f, n := ContainerParts(writer, reader, v);
      LoadsSplit(writer, reader, es, k);
      OneNull(writer);
      var inner := LeavingForm(writer, reader, es[k], last);
      b := SizeHeader(f, n) + (EmitAll(writer, es[..k]).bytes + inner);
      ContainerLeft(writer, reader, v, f, n, k, inner, last);
    }
  }

  /** The element to fail at: the last one, or the one before it if a null can be saved. */
  function FailAt(v: Value, last: bool): (k: nat)
    requires Leavable(v) && v != Null
    ensures Elements(v) != [] && k < |Elements(v)| && Leavable(Elements(v)[k]) && Elements(v)[k] < v
    ensures Elements(v)[k + 1..] == if k == |Elements(v)| - 1 then [] else [Null]
    ensures forall j :: k < j < |Elements(v)| ==> Elements(v)[j] == Null
    ensures LeftShorter(v, last) ==> k < |Elements(v)| - 1 || LeftShorter(Elements(v)[k], last)
  {
    var es := Elements(v);
    if !last && |es| >= 2 && es[|es| - 1] == Null && Leavable(es[|es| - 2]) then |es| - 2 else |es| - 1
  }

  lemma ContainerLeft(writer: Check, reader: Check, v: Value, f: Family, n: nat, k: nat, inner: Octets, last: bool)
    requires f in {ListFamily, MapFamily} && n <= INT32_MAX && |Elements(v)| == Slotted(f, n)
    requires v == if f == MapFamily then Dictionary(Elements(v)) else List(Elements(v))
    requires AllGood(writer, reader, Elements(v)) && k < |Elements(v)|
    requires forall j :: k < j < |Elements(v)| ==> Elements(v)[j] == Null
    requires Leaves(reader, inner, Elements(v)[k], last)
    ensures AllRepresentable(Elements(v)[..k])
    ensures Leaves(reader, SizeHeader(f, n) + (EmitAll(writer, Elements(v)[..k]).bytes + inner), v, last)
  {
    var es := Elements(v);
    LoadsSplit(writer, reader, es, k);
    var front := EmitAll(writer, es[..k]).bytes;
    forall tail: Octets | last ==> Stuck(tail)
      ensures FailsWith(Decode(reader, Null, SizeHeader(f, n) + (front + inner) + tail), v, tail)
    {
      Associative(SizeHeader(f, n), front + inner, tail);
      Associative(front, inner, tail);
      ContainerDecodes(reader, f, n, Null, front + (inner + tail));
      RunLeft(writer, reader, es, k, inner, tail);
      assert Slots(f, Null, n) == Nulls(|es|);
    }
  }

  // ---------------------------------------------------------------- forms that are accepted

  lemma {:induction false} ShorterIsLeavable(v: Value, last: bool)
    requires LeftShorter(v, last)
    ensures Leavable(v)
    decreases v
  {
    var es := Elements(v);
    if !last && LeftShorter(es[|es| - 1], false) {
      ShorterIsLeavable(es[|es| - 1], false);
    }
  }

  /** A value that is not tight has an accepted form shorter than what load writes. */
  lemma {:induction false} ShorterForm(writer: Check, reader: Check, v: Value, last: bool) returns (b: Octets)
    requires Good(writer, reader, v) && !Tight(v, last)
    ensures Stands(reader, b, v, last) && |b| < |Emit(writer, v).bytes|
    decreases v
  {
    if v.Structure? {
      StructureParts(writer, v);
      assert AllGood(writer, reader, v.fields) by { assert Children(v) == v.fields; }
      var i :| 0 <= i < |v.fields| && !FieldTight(v.fields[i], last && i == |v.fields| - 1);
      var here := last && i == |v.fields| - 1;
      LoadsSplit(writer, reader, v.fields, i);
      var inner: Octets;
      if Tight(v.fields[i], here) {
        ShorterIsLeavable(v.fields[i], here);
        inner := LeavingForm(writer, reader, v.fields[i], here);
      } else {
        inner := ShorterForm(writer, reader, v.fields[i], here);
      }
      b := StructureHeader(v.code, |v.fields|).bytes + Replaced(writer, v.fields, i, inner);
      StructureReplaced(writer, reader, v, i, inner, last);
    } else {
      var es := Elements(v);
      var i :| 0 <= i < |es| && !Tight(es[i], last && i == |es| - 1);
      var f, n := ContainerParts(writer, reader, v);
      LoadsSplit(writer, reader, es, i);
      var inner := ShorterForm(writer, reader, es[i], last && i == |es| - 1);
      b := SizeHeader(f, n) + Replaced(writer, es, i, inner);
      ContainerReplaced(writer, reader, v, f, n, i, inner, last);
    }
  }

  lemma ContainerReplaced(writer: Check, reader: Check, v: Value, f: Family, n: nat, i: nat, inner: Octets, last: bool)
    requires f in {ListFamily, MapFamily} && n <= INT32_MAX && |Elements(v)| == Slotted(f, n)
    requires v == if f == MapFamily then Dictionary(Elements(v)) else List(Elements(v))
    requires AllGood(writer, reader, Elements(v)) && i < |Elements(v)|
    requires Stands(reader, inner, Elements(v)[i], last && i == |Elements(v)| - 1)
    ensures Stands(reader, SizeHeader(f, n) + Replaced(writer, Elements(v), i, inner), v, last)
  {
    var es := Elements(v);
    var run := Replaced(writer, es, i, inner);
    forall target, tail: Octets | last ==> Stuck(tail)
      ensures Decode(reader, target, SizeHeader(f, n) + run + tail) == Parsed(Success, v, tail)
    {
      Associative(SizeHeader(f, n), run, tail);
      ContainerDecodes(reader, f, n, target, run + tail);
      var others := EmitAll(writer, es[i + 1..]).bytes + tail;
      assert i == |es| - 1 ==> others == tail;
      var slots := Slots(f, target, n);
      assert Decode(reader, slots[i], inner + others) == Parsed(Success, es[i], others);
      RunWithReplaced(writer, reader, true, es, slots, i, inner, tail);
    }
  }

  lemma StructureReplaced(writer: Check, reader: Check, v: Value, i: nat, inner: Octets, last: bool)
    requires Good(writer, reader, v) && v.Structure? && AllGood(writer, reader, v.fields) && i < |v.fields|
    requires var here := last && i == |v.fields| - 1;
             Stands(reader, inner, v.fields[i], here) || Leaves(reader, inner, v.fields[i], here)
    ensures Stands(reader, StructureHeader(v.code, |v.fields|).bytes + Replaced(writer, v.fields, i, inner), v, last)
  {
    var fields, header := v.fields, StructureHeader(v.code, |v.fields|).bytes;
    var run := Replaced(writer, fields, i, inner);
    forall target, tail: Octets | last ==> Stuck(tail)
      ensures Decode(reader, target, header + run + tail) == Parsed(Success, v, tail)
    {
      var others := EmitAll(writer, fields[i + 1..]).bytes + tail;
      assert i == |fields| - 1 ==> others == tail;
      var p := Decode(reader, Null, inner + others);
      assert p.Parsed? && p.value == fields[i] && p.rest == others;
      RunWithReplaced(writer, reader, false, fields, Nulls(|fields|), i, inner, tail);
      StructureDecodes(writer, reader, v, target, run, tail);
    }
  }

  lemma StructureDecodes(writer: Check, reader: Check, v: Value, target: Value, run: Octets, tail: Octets)
    requires Good(writer, reader, v) && v.Structure?
    requires DecodeMany(reader, false, Nulls(|v.fields|), run + tail) == ParsedMany(Success, v.fields, tail)
    ensures Decode(reader, target, StructureHeader(v.code, |v.fields|).bytes + run + tail) == Parsed(Success, v, tail)
  {
    StructureHeaderBytes(writer, v.code, |v.fields|);
    var header := StructureHeader(v.code, |v.fields|).bytes;
    hide StructureHeader, Decode, DecodeMany, Emit, Accepts, SignedBEValue;
    var input := header + run + tail;
    OpeningByte(header, run, tail);
    SplitAt([v.code], run + tail);
    DecodeStructureCases(reader, target, input, |v.fields|, v.code);
  }

  // ---------------------------------------------------------------- what can be accepted at all

  /** Apart from lists and dictionaries, what fails leaves its target alone. */
  lemma FlatOutcome(reader: Check, target: Value, input: Octets)
    requires Decode(reader, target, input).Parsed?
    requires MarkerTypeOf(input[0]) != ListMark && MarkerTypeOf(input[0]) != MapMark
    ensures var p := Decode(reader, target, input);
            if p.status != Success then p.value == target
            else MarkerTypeOf(input[0]) != StructureMark ==> Children(p.value) == [] && !p.value.Structure?
  {
  }

  /** Whatever unload accepts has only small readable structures in it. */
  lemma {:induction false} AcceptedIsRecoverable(reader: Check, target: Value, input: Octets)
    requires var p := Decode(reader, target, input);
             p.Parsed? && (p.status == Success || Recoverable(reader, target))
    ensures Recoverable(reader, Decode(reader, target, input).value)
    decreases |input|, 0
  {
    var p := Decode(reader, target, input);
    assert input != [];
    hide Decode, DecodeMany;
    match MarkerTypeOf(input[0])
    case ListMark => SequenceIsRecoverable(reader, ListFamily, target, input);
    case MapMark => SequenceIsRecoverable(reader, MapFamily, target, input);
    case StructureMark =>
      FlatOutcome(reader, target, input);
      if p.status == Success {
        AcceptedStructure(reader, target, input, p.value, p.rest);
        RunIsRecoverable(reader, false, Nulls(|p.value.fields|), input[1..][1..]);
        assert Children(p.value) == p.value.fields;
      }
    case _ => FlatOutcome(reader, target, input);
  }

  lemma {:induction false} SequenceIsRecoverable(reader: Check, f: Family, target: Value, input: Octets)
    requires input != [] && IsSequence(f, input[0])
    requires var p := Decode(reader, target, input);
             p.Parsed? && (p.status == Success || Recoverable(reader, target))
    ensures Recoverable(reader, Decode(reader, target, input).value)
    decreases |input|, 0, 0
  {
    var size := ReadSize(f, input[0], input[1..]);
    if size.Sized? && size.size >= 0 {
      DecodeSequenceStep(reader, target, input, f, size.size, size.rest);
      var slots := Slots(f, target, size.size);
      if Recoverable(reader, target) {
        SlotsAreRecoverable(reader, f, target, size.size);
      }
      RunIsRecoverable(reader, true, slots, size.rest);
    }
  }

  lemma SlotsAreRecoverable(reader: Check, f: Family, target: Value, n: nat)
    requires Recoverable(reader, target)
    ensures AllRecoverable(reader, Slots(f, target, n))
  {
    var slots := Slots(f, target, n);
    forall i | 0 <= i < |slots|
      ensures Recoverable(reader, slots[i])
    {
      assert slots[i] == Null || slots[i] in Children(target);
    }
  }

  lemma {:induction false} RunIsRecoverable(reader: Check, strict: bool, targets: seq<Value>, input: Octets)
    requires var p := DecodeMany(reader, strict, targets, input);
             p.ParsedMany? && ((strict && p.status == Success) || AllRecoverable(reader, targets))
    ensures AllRecoverable(reader, DecodeMany(reader, strict, targets, input).values)
    decreases |input|, |targets| + 1
  {
    if targets != [] {
      var first := Decode(reader, targets[0], input);
      AcceptedIsRecoverable(reader, targets[0], input);
      if !(strict && first.status != Success) {
        RunIsRecoverable(reader, strict, targets[1..], first.rest);
      }
    }
  }

  // ---------------------------------------------------------------- main result

  /** This input is accepted as the value, up to this rest, in this target. */
  predicate Accepted(reader: Check, target: Value, input: Octets, v: Value, rest: Octets)
  {
    Decode(reader, target, input) == Parsed(Success, v, rest)
  }

  /** What load writes is the shortest accepted form of a value, among those that any bytes
      may follow (and so among complete byte strings), exactly when the value is tight or
      cannot be accepted at all. With anywhere, forms count too that only stand before a
      reserved marker; then it is so exactly when the value is tight as the last of its input. */
  lemma LoadIsShortestExactlyWhen(writer: Check, reader: Check, v: Value, anywhere: bool)
    requires Representable(v) && Loads(writer, v)
    ensures (forall target, input: Octets, rest: Octets ::
               Accepted(reader, target, input, v, rest) && (Stuck(rest) ==> anywhere) ==>
                 |Emit(writer, v).bytes| <= |input| - |rest|) <==>
            (Recoverable(reader, v) ==> Tight(v, anywhere))
  {
    if Recoverable(reader, v) && !Tight(v, anywhere) {
      var b := ShorterForm(writer, reader, v, anywhere);
      var tail: Octets := if anywhere then [0xC4] else [];
      assert Accepted(reader, Null, b + tail, v, tail);
    } else {
      forall target, input: Octets, rest: Octets |
        Accepted(reader, target, input, v, rest) && (Stuck(rest) ==> anywhere)
        ensures |Emit(writer, v).bytes| <= |input| - |rest|
      {
        AcceptedIsRecoverable(reader, target, input);
        if anywhere {
          TightAnywhere(v);
        }
        LoadIsShortest(writer, reader, v, target, input, rest);
      }
    }
  }

  /** A value that is tight at the end of its input is tight before anything else. */
  lemma {:induction false} TightAnywhere(v: Value)
    requires Tight(v, true)
    ensures Tight(v, false)
    decreases v
  {
    if v.Structure? {
      forall i | 0 <= i < |v.fields|
        ensures FieldTight(v.fields[i], false)
      {
        assert FieldTight(v.fields[i], i == |v.fields| - 1);
        if i == |v.fields| - 1 {
          TightAnywhere(v.fields[i]);
        }
        if LeftShorter(v.fields[i], false) {
          ShorterIsLeavable(v.fields[i], false);
        }
      }
    } else {
      forall i | 0 <= i < |Elements(v)|
        ensures Tight(Elements(v)[i], false)
      {
        assert Tight(Elements(v)[i], i == |Elements(v)| - 1);
        if i == |Elements(v)| - 1 {
          TightAnywhere(Elements(v)[i]);
        }
      }
    }
  }

  // ---------------------------------------------------------------- an example

  /** A list of two nulls cut off after its header by a marker unload refuses. */
  lemma CutOffList(check: Check)
    ensures Decode(check, Null, [0x92, 0xDC]) == Parsed(UnexpectedMarker, List([Null, Null]), [])
  {
    var input: Octets := [0x92, 0xDC];
    assert input[1..] == [0xDC];
    assert Decode(check, Null, [0xDC]) == Parsed(UnexpectedMarker, Null, []);
    var slots := Slots(ListFamily, Null, 2);
    assert [Null] + slots[1..] == [Null, Null];
    DecodeSequenceStep(check, Null, input, ListFamily, 2, [0xDC]);
  }

  lemma TwoNulls(check: Check)
    ensures Representable(List([Null, Null])) && Emit(check, List([Null, Null])).bytes == [0x92, 0xC0, 0xC0]
  {
    var nulls: seq<Value> := [Null, Null];
    assert EmitAll(check, nulls[1..]).bytes == [0xC0];
  }

  /** Structure fields may fail unnoticed, so a structure can have a shorter form. */
  lemma StructuresHaveShorterForms(target: Value)
    ensures var v := Structure(0x58, [List([Null, Null])]);
            var shorter: Octets := [0xB1, 0x58, 0x92, 0xDC];
            Representable(v) && Loads(Writable(V3), v) &&
            Decode(Readable(V3), target, shorter) == Parsed(Success, v, []) &&
            |Emit(Writable(V3), v).bytes| == |shorter| + 1
  {
    var fields := [List([Null, Null])];
    var shorter: Octets := [0xB1, 0x58, 0x92, 0xDC];
    StructureHeaderBytes(Writable(V3), 0x58, 1);
    assert shorter[1..][..1] == [0x58] && shorter[1..][1..] == [0x92, 0xDC];
    CutOffList(Readable(V3));
    assert DecodeMany(Readable(V3), false, Nulls(1), [0x92, 0xDC]) == ParsedMany(Success, fields, []);
    DecodeStructureCases(Readable(V3), target, shorter, 1, 0x58);
    TwoNulls(Writable(V3));
    assert EmitAll(Writable(V3), fields[1..]).bytes == [];
    assert EmitAll(Writable(V3), fields).bytes == [0x92, 0xC0, 0xC0];
  }
}
