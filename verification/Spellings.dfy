/** Which values are unloaded from their spellings alone. */
module Spellings {
  import opened Bytes
  import opened Values
  import opened Signatures
  import opened PackStream
  import opened RoundTrip
  import opened Shortest
  import opened ShorterForms
  import opened WireFormat

  /** No structure inside has a field that a failing unload could have left. */
  predicate Firm(v: Value)
  {
    (v.Structure? ==> forall f :: f in v.fields ==> !Leavable(f)) && forall c :: c in Children(v) ==> Firm(c)
  }

  predicate AllFirm(vs: seq<Value>)
  {
    forall v :: v in vs ==> Firm(v)
  }

  /** A spelling of the value stands in front of the rest. */
  ghost predicate SpelledBefore(v: Value, input: Octets, rest: Octets)
  {
    exists k :: 0 <= k <= |input| && Spells(v, input[..k]) && input[k..] == rest
  }

  ghost predicate AllSpelledBefore(vs: seq<Value>, input: Octets, rest: Octets)
  {
    exists k :: 0 <= k <= |input| && SpellsAll(vs, input[..k]) && input[k..] == rest
  }

  /** Whenever the value is unloaded, it is from a spelling of it. */
  ghost predicate OnlyFromSpellings(reader: Check, v: Value)
  {
    forall target, input: Octets, rest ::
      Decode(reader, target, input) == Parsed(Success, v, rest) ==> SpelledBefore(v, input, rest)
  }

  // ---------------------------------------------------------------- firm values

  lemma ReadIsAnnounced(f: Family, input: Octets, n: nat, rest: Octets) returns (k: nat)
    requires input != [] && ReadSize(f, input[0], input[1..]) == Sized(n, rest)
    ensures k <= |input| && Announces(input[..k], n, TinyForm(f), WideForm(f)) && input[k..] == rest
  {
    var body := input[1..];
    k := |input| - |rest|;
    if k == 3 {
      NumberIsBigEndian(body[..2]);
      assert input[..3][1..] == body[..2];
    } else if k == 5 {
      SignedNumberIsBigEndian(body[..4]);
      assert input[..5][1..] == body[..4];
    }
  }

  lemma IntegerWasSpelled(input: Octets, n: int, rest: Octets)
    requires input != [] && MarkerTypeOf(input[0]) == IntegerMark
    requires DecodeInteger(input[0], input[1..]) == Parsed(Success, Integer(n), rest)
    ensures SpelledBefore(Integer(n), input, rest)
  {
    var body := input[1..];
    var k := |input| - |rest|;
    if k > 1 {
      SignedNumberIsBigEndian(body[..k - 1]);
      assert input[..k][1..] == body[..k - 1];
    }
    assert Spells(Integer(n), input[..k]) && input[k..] == rest;
  }

  lemma TextWasSpelled(f: Family, input: Octets, target: Value, v: Value, rest: Octets)
    requires f == StringFamily || f == BytesFamily
    requires input != [] && DecodeText(f, input[0], input[1..], target) == Parsed(Success, v, rest)
    ensures SpelledBefore(v, input, rest)
  {
    hide Announces, ReadSize;
    var size := ReadSize(f, input[0], input[1..]);
    var n, body := size.size, size.rest;
    var k := ReadIsAnnounced(f, input, n, body);
    var b := input[..k + n];
    assert b[..k] == input[..k] && b[k..] == body[..n] && input[k + n..] == rest;
    assert SpellsText(body[..n], b, TinyForm(f), WideForm(f));
    assert Spells(v, b);
  }

  /** A firm value is unloaded from its spellings alone. */
  lemma {:induction false} UnloadedWasSpelled(reader: Check, target: Value, input: Octets, v: Value, rest: Octets)
    requires Decode(reader, target, input) == Parsed(Success, v, rest) && Firm(v)
    ensures SpelledBefore(v, input, rest)
    decreases |input|, 1
  {
    hide DecodeMany, SpellsText, SpellsInteger, Announces, SpellsAll;
    match MarkerTypeOf(input[0])
    case IntegerMark =>
      DecodeIntegerStep(reader, target, input);
      IntegerWasSpelled(input, v.number, rest);
    case StringMark =>
      DecodeTextStep(reader, target, input, StringFamily);
      TextWasSpelled(StringFamily, input, target, v, rest);
    case BytesMark =>
      DecodeTextStep(reader, target, input, BytesFamily);
      TextWasSpelled(BytesFamily, input, target, v, rest);
    case FloatMark => FloatWasSpelled(reader, target, input, v, rest);
    case ListMark => SequenceWasSpelled(reader, ListFamily, target, input, v, rest);
    case MapMark => SequenceWasSpelled(reader, MapFamily, target, input, v, rest);
    case StructureMark =>
      AcceptedStructure(reader, target, input, v, rest);
      RunWasSpelled(reader, false, Nulls(|v.fields|), input[1..][1..], v.fields, rest);
      StructureWasSpelled(reader, target, input, v, rest);
    case NullMark => assert Spells(v, input[..1]) && input[1..] == rest;
    case BooleanMark => assert Spells(v, input[..1]) && input[1..] == rest;
    case ReservedMark =>
  }

  lemma FloatWasSpelled(reader: Check, target: Value, input: Octets, v: Value, rest: Octets)
    requires input != [] && MarkerTypeOf(input[0]) == FloatMark
    requires Decode(reader, target, input) == Parsed(Success, v, rest)
    ensures SpelledBefore(v, input, rest)
  {
    var b := input[..9];
    assert input[1..][..8] == b[1..];
    assert forall i :: 1 <= i <= 8 ==> b[i] == v.bits[8 - i];
    assert Spells(v, b) && input[9..] == rest;
  }

  lemma StructureWasSpelled(reader: Check, target: Value, input: Octets, v: Value, rest: Octets)
    requires input != [] && MarkerTypeOf(input[0]) == StructureMark
    requires Decode(reader, target, input) == Parsed(Success, v, rest)
    requires |input| >= 2 && v.Structure? && AllSpelledBefore(v.fields, input[1..][1..], rest)
    ensures SpelledBefore(v, input, rest)
  {
    hide SpellsAll, Decode, DecodeMany, Spells;
    StructureStart(reader, target, input, v, rest);
    var body := input[1..][1..];
    var k :| 0 <= k <= |body| && SpellsAll(v.fields, body[..k]) && body[k..] == rest;
    CutTwice(input, 2, k);
    assert body == input[2..];
    FieldsBehind(v, input[..2 + k]);
  }

  lemma StructureStart(reader: Check, target: Value, input: Octets, v: Value, rest: Octets)
    requires |input| >= 2 && MarkerTypeOf(input[0]) == StructureMark && v.Structure?
    requires Decode(reader, target, input) == Parsed(Success, v, rest)
    ensures input[0] == 0xB0 + |v.fields| && |v.fields| < 0x10 && v.code == input[1] < 0x80
  {
    var code: Byte := input[1];
    assert input[1..][..1] == [code];
    SignedNumberIsBigEndian([code]);
    assert Number([code]) == code by { assert Number([]) == 0 && [code][..0] == []; }
    AcceptedStructure(reader, target, input, v, rest);
    AcceptedCodesFitOneByte(reader, v.code);
  }

  lemma FieldsBehind(v: Value, b: Octets)
    requires v.Structure? && |b| >= 2 && |v.fields| < 0x10 && b[0] == 0xB0 + |v.fields|
    requires v.code == b[1] < 0x80 && SpellsAll(v.fields, b[2..])
    ensures Spells(v, b)
  {
  }

  lemma {:induction false} SequenceWasSpelled(reader: Check, f: Family, target: Value, input: Octets, v: Value,
                                              rest: Octets)
    requires input != [] && IsSequence(f, input[0])
    requires Decode(reader, target, input) == Parsed(Success, v, rest) && Firm(v)
    ensures SpelledBefore(v, input, rest)
    decreases |input|, 0
  {
    hide Decode, DecodeMany, Announces, Spells, SpellsAll, Slots;
    SequenceMustBeSized(reader, f, v, target, input, rest);
    var size := ReadSize(f, input[0], input[1..]);
    var n, body := size.size, size.rest;
    DecodeSequenceStep(reader, target, input, f, n, body);
    assert Children(v) == Elements(v);
    RunWasSpelled(reader, true, Slots(f, target, n), body, Elements(v), rest);
    var k := ReadIsAnnounced(f, input, n, body);
    HeaderAndElements(f, n, v, input, k, rest);
  }

  lemma HeaderAndElements(f: Family, n: nat, v: Value, input: Octets, k: nat, rest: Octets)
    requires f in {ListFamily, MapFamily} && |Elements(v)| == Slotted(f, n)
    requires v == if f == MapFamily then Dictionary(Elements(v)) else List(Elements(v))
    requires k <= |input| && Announces(input[..k], n, TinyForm(f), WideForm(f))
    requires AllSpelledBefore(Elements(v), input[k..], rest)
    ensures SpelledBefore(v, input, rest)
  {
    hide Announces, Spells, SpellsAll;
    var body := input[k..];
    var m :| 0 <= m <= |body| && SpellsAll(Elements(v), body[..m]) && body[m..] == rest;
    CutTwice(input, k, m);
    HeaderAndRun(f, n, v, input[..k + m], k);
  }

  lemma HeaderAndRun(f: Family, n: nat, v: Value, b: Octets, k: nat)
    requires f in {ListFamily, MapFamily} && |Elements(v)| == Slotted(f, n)
    requires v == if f == MapFamily then Dictionary(Elements(v)) else List(Elements(v))
    requires k <= |b| && Announces(b[..k], n, TinyForm(f), WideForm(f)) && SpellsAll(Elements(v), b[k..])
    ensures Spells(v, b)
  {
    hide Announces, SpellsAll;
  }

  lemma {:induction false} RunWasSpelled(reader: Check, strict: bool, targets: seq<Value>, input: Octets,
                                         vs: seq<Value>, rest: Octets)
    requires DecodeMany(reader, strict, targets, input) == ParsedMany(Success, vs, rest) && AllFirm(vs)
    requires strict || (targets == Nulls(|vs|) && forall v :: v in vs ==> !Leavable(v))
    ensures AllSpelledBefore(vs, input, rest)
    decreases |input|, 2, |vs|
  {
    if vs == [] {
      assert SpellsAll(vs, input[..0]) && input[0..] == rest;
    } else {
      var first := DecodeManyHead(reader, strict, targets, input, vs, rest);
      if first.status != Success {
        assert targets[0] == Null && vs[0] in vs;
        LeftIsLeavable(reader, input);
      }
      UnloadedWasSpelled(reader, targets[0], input, vs[0], first.rest);
      assert !strict ==> targets[1..] == Nulls(|vs| - 1);
      RunWasSpelled(reader, strict, targets[1..], first.rest, vs[1..], rest);
      OneMoreSpelled(vs, input, first.rest, rest);
    }
  }

  lemma OneMoreSpelled(vs: seq<Value>, input: Octets, middle: Octets, rest: Octets)
    requires vs != [] && SpelledBefore(vs[0], input, middle) && AllSpelledBefore(vs[1..], middle, rest)
    ensures AllSpelledBefore(vs, input, rest)
  {
    hide Spells, SpellsAll;
    var k :| 0 <= k <= |input| && Spells(vs[0], input[..k]) && input[k..] == middle;
    var m :| 0 <= m <= |middle| && SpellsAll(vs[1..], middle[..m]) && middle[m..] == rest;
    CutTwice(input, k, m);
    FirstAndOthers(vs, input[..k + m], k);
  }

  lemma CutTwice(input: Octets, k: nat, m: nat)
    requires k + m <= |input|
    ensures input[..k + m][..k] == input[..k] && input[..k + m][k..] == input[k..][..m]
    ensures input[k + m..] == input[k..][m..]
  {
  }

  lemma FirstAndOthers(vs: seq<Value>, b: Octets, k: nat)
    requires vs != [] && k <= |b| && Spells(vs[0], b[..k]) && SpellsAll(vs[1..], b[k..])
    ensures SpellsAll(vs, b)
  {
    hide Spells;
  }

  // ---------------------------------------------------------------- the others

  /** A run in which a value has been replaced spells the values only if what replaces it is
      no failing form, and spells it if it is read as that value. */
  lemma {:induction false} ReplacedSpelling(writer: Check, reader: Check, vs: seq<Value>, i: nat, inner: Octets)
    requires AllGood(writer, reader, vs) && i < |vs| && SpellsAll(vs, Replaced(writer, vs, i, inner))
    ensures !Leaves(reader, inner, vs[i], false)
    ensures Stands(reader, inner, vs[i], false) ==> Spells(vs[i], inner)
    decreases i
  {
    hide Spells, Decode, Emit, EmitAll, Recoverable, Representable;
    var x := Replaced(writer, vs, i, inner);
    var k :| 0 <= k <= |x| && Spells(vs[0], x[..k]) && SpellsAll(vs[1..], x[k..]);
    assert x == x[..k] + x[k..] && vs[0] in vs;
    SpelledIsUnloaded(reader, vs[0], x[..k], Null, x[k..]);
    LoadsSplit(writer, reader, vs, i);
    if i == 0 {
      OneNull(writer);
      var others := EmitAll(writer, vs[1..]).bytes;
      assert x == inner + others by { assert vs[..0] == []; }
      assert !FailsWith(Decode(reader, Null, inner + others), vs[0], others);
      if Stands(reader, inner, vs[0], false) {
        assert Decode(reader, Null, inner + others) == Parsed(Success, vs[0], others);
        assert x[..k] == inner;
      }
    } else {
      ReplacedLater(writer, reader, vs, i, inner);
      LoadThenUnload(writer, reader, vs[0], Null, Replaced(writer, vs[1..], i - 1, inner));
      ReplacedSpelling(writer, reader, vs[1..], i - 1, inner);
    }
  }

  lemma ReplacedLater(writer: Check, reader: Check, vs: seq<Value>, i: nat, inner: Octets)
    requires AllGood(writer, reader, vs) && 0 < i < |vs|
    ensures AllGood(writer, reader, vs[1..]) && Good(writer, reader, vs[0])
    ensures Replaced(writer, vs, i, inner) == Emit(writer, vs[0]).bytes + Replaced(writer, vs[1..], i - 1, inner)
  {
    EmitAllFirst(writer, vs);
    LoadsSplit(writer, reader, vs, i);
    EmitAllFirst(writer, vs[..i]);
    assert vs[..i][1..] == vs[1..][..i - 1] && vs[1..][i..] == vs[i + 1..];
    Associative(Emit(writer, vs[0]).bytes, EmitAll(writer, vs[..i][1..]).bytes,
                inner + EmitAll(writer, vs[i + 1..]).bytes);
  }

  /** A value that is not firm is also unloaded from bytes that do not spell it. */
  lemma {:induction false} OtherForm(writer: Check, reader: Check, v: Value) returns (b: Octets)
    requires Good(writer, reader, v) && !Firm(v)
    ensures Stands(reader, b, v, false) && !Spells(v, b)
    decreases v
  {
    hide Decode, DecodeMany, Emit, EmitAll, Recoverable, Representable, Leavable, Spells, SpellsAll, Stands, Leaves;
    if v.Structure? {
      FieldsAreGood(writer, reader, v);
      var i :| 0 <= i < |v.fields| && (Leavable(v.fields[i]) || !Firm(v.fields[i]));
      LoadsSplit(writer, reader, v.fields, i);
      var inner: Octets;
      if Leavable(v.fields[i]) {
        inner := LeavingForm(writer, reader, v.fields[i], false);
      } else {
        inner := OtherForm(writer, reader, v.fields[i]);
      }
      b := StructureHeader(v.code, |v.fields|).bytes + Replaced(writer, v.fields, i, inner);
      StructureReplaced(writer, reader, v, i, inner, false);
      FieldsBehindHeader(writer, v, Replaced(writer, v.fields, i, inner));
      if Spells(v, b) {
        ReplacedSpelling(writer, reader, v.fields, i, inner);
      }
    } else {
      var es := Elements(v);
      var i :| 0 <= i < |es| && !Firm(es[i]);
      var f, n := ContainerParts(writer, reader, v);
      LoadsSplit(writer, reader, es, i);
      var inner := OtherForm(writer, reader, es[i]);
      b := SizeHeader(f, n) + Replaced(writer, es, i, inner);
      ContainerReplaced(writer, reader, v, f, n, i, inner, false);
      ElementsBehindHeader(f, n, es, v, Replaced(writer, es, i, inner));
      if Spells(v, b) {
        ReplacedSpelling(writer, reader, es, i, inner);
      }
    }
  }

  lemma FieldsAreGood(writer: Check, reader: Check, v: Value)
    requires Good(writer, reader, v) && v.Structure?
    ensures AllGood(writer, reader, v.fields)
  {
    StructureParts(writer, v);
    assert Children(v) == v.fields;
  }

  lemma FieldsBehindHeader(writer: Check, v: Value, run: Octets)
    requires v.Structure? && Representable(v) && Loads(writer, v)
    ensures Spells(v, StructureHeader(v.code, |v.fields|).bytes + run) ==> SpellsAll(v.fields, run)
  {
    var b := StructureHeader(v.code, |v.fields|).bytes + run;
    StructureHeaderBytes(writer, v.code, |v.fields|);
    assert b[2..] == run;
  }

  lemma ElementsBehindHeader(f: Family, n: nat, es: seq<Value>, v: Value, run: Octets)
    requires f in {ListFamily, MapFamily} && n <= INT32_MAX && |es| == Slotted(f, n)
    requires v == if f == MapFamily then Dictionary(es) else List(es)
    ensures Spells(v, SizeHeader(f, n) + run) ==> SpellsAll(es, run)
  {
    hide Announces, SpellsAll, ReadSize, SizeHeader;
    var b := SizeHeader(f, n) + run;
    if Spells(v, b) {
      var k :| 0 <= k <= |b| && Announces(b[..k], n, TinyForm(f), WideForm(f)) && SpellsAll(es, b[k..]);
      AnnouncedTwice(f, n, b, k, run);
    }
  }

  lemma AnnouncedTwice(f: Family, n: nat, b: Octets, k: nat, run: Octets)
    requires n <= INT32_MAX && b == SizeHeader(f, n) + run
    requires k <= |b| && Announces(b[..k], n, TinyForm(f), WideForm(f))
    ensures b[k..] == run
  {
    hide ReadSize, SizeHeader, Announces;
    Nonempty(b[..k], n, f);
    AnnouncedIsRead(f, b[..k], n, b[k..]);
    assert b[1..] == b[..k][1..] + b[k..];
    SizeHeaderRoundTrip(f, n, run);
    assert b[1..] == SizeHeader(f, n)[1..] + run;
  }

  // ---------------------------------------------------------------- main result

  /** A value is unloaded from its spellings alone exactly when no structure inside has a field
      that a failing unload could have left: a null, or a list or dictionary that ends in one. */
  lemma SpellingsAreAllExactlyWhen(writer: Check, reader: Check, v: Value)
    requires Good(writer, reader, v)
    ensures Firm(v) <==> OnlyFromSpellings(reader, v)
  {
    if Firm(v) {
      forall target, input: Octets, rest | Decode(reader, target, input) == Parsed(Success, v, rest)
        ensures SpelledBefore(v, input, rest)
      {
        UnloadedWasSpelled(reader, target, input, v, rest);
      }
    } else {
      var b := OtherForm(writer, reader, v);
      assert b + [] == b;
      assert Decode(reader, Null, b + []) == Parsed(Success, v, []);
      forall k | 0 <= k <= |b| && b[k..] == []
        ensures !Spells(v, b[..k])
      {
        assert b[..k] == b;
      }
    }
  }
}
