/** The PackStream format as a relation on bytes: which byte strings spell a value. A value may
    have several spellings, since a size or an integer may be written wider than it needs. */
module WireFormat {
  import opened Bytes
  import opened Values
  import opened Signatures
  import opened PackStream
  import opened RoundTrip
  import opened Storage

  // ---------------------------------------------------------------- the format

  /** The number written in bytes, most significant byte first. */
  ghost function Number(s: Octets): (u: nat)
  {
    if s == [] then 0 else 0x100 * Number(s[..|s| - 1]) + s[|s| - 1]
  }

  /** The same bytes as a two's complement number of 1, 2, 4 or 8 bytes. */
  ghost function SignedNumber(s: Octets): (x: int)
    requires s != []
  {
    if s[0] < 0x80 then Number(s)
    else Number(s) - match |s|
      case 1 => 0x100
      case 2 => 0x1_0000
      case 4 => 0x1_0000_0000
      case 8 => 0x1_0000_0000_0000_0000
      case _ => 0
  }

  /** A header for a size: one byte counting up from tiny (where there is such a form), or the
      marker wide and 8 bits, the next marker and 16 bits, or the one after and 31 bits. */
  ghost predicate Announces(h: Octets, n: nat, tiny: Option<int>, wide: int)
  {
    (tiny.Some? && n < 0x10 && |h| == 1 && h[0] == tiny.value + n) ||
    (|h| == 2 && h[0] == wide && h[1] == n) ||
    (|h| == 3 && h[0] == wide + 1 && Number(h[1..]) == n) ||
    (|h| == 5 && h[0] == wide + 2 && h[1] < 0x80 && Number(h[1..]) == n)
  }

  ghost predicate SpellsInteger(n: int, b: Octets)
  {
    (|b| == 1 && b[0] < 0x80 && n == b[0]) || (|b| == 1 && b[0] >= 0xF0 && n + 0x100 == b[0]) ||
    (|b| == 2 && b[0] == 0xC8 && n == SignedNumber(b[1..])) ||
    (|b| == 3 && b[0] == 0xC9 && n == SignedNumber(b[1..])) ||
    (|b| == 5 && b[0] == 0xCA && n == SignedNumber(b[1..])) ||
    (|b| == 9 && b[0] == 0xCB && n == SignedNumber(b[1..]))
  }

  ghost predicate SpellsText(text: Octets, b: Octets, tiny: Option<int>, wide: int)
  {
    exists k :: 0 <= k <= |b| && Announces(b[..k], |text|, tiny, wide) && b[k..] == text
  }

  ghost predicate Spells(v: Value, b: Octets)
    decreases v, 0
  {
    match v
    case Null => b == [0xC0]
    case Boolean(flag) => b == if flag then [0xC3] else [0xC2]
    case Integer(n) => SpellsInteger(n, b)
    case Float(bits) => |bits| == 8 && |b| == 9 && b[0] == 0xC1 && forall i :: 1 <= i <= 8 ==> b[i] == bits[8 - i]
    case String(text) => SpellsText(text, b, Some(0x80), 0xD0)
    case Bytes(octets) => SpellsText(octets, b, None, 0xCC)
    case List(items) =>
      exists k :: 0 <= k <= |b| && Announces(b[..k], |items|, Some(0x90), 0xD4) && SpellsAll(items, b[k..])
    case Dictionary(pairs) =>
      |pairs| % 2 == 0 &&
      exists k :: 0 <= k <= |b| && Announces(b[..k], |pairs| / 2, Some(0xA0), 0xD8) && SpellsAll(pairs, b[k..])
    case Structure(code, fields) =>
      |fields| < 0x10 && |b| >= 2 && b[0] == 0xB0 + |fields| && code == b[1] < 0x80 && SpellsAll(fields, b[2..])
  }

  ghost predicate SpellsAll(vs: seq<Value>, b: Octets)
    decreases vs, 0
  {
    if vs == [] then b == []
    else exists k :: 0 <= k <= |b| && Spells(vs[0], b[..k]) && SpellsAll(vs[1..], b[k..])
  }

  // ---------------------------------------------------------------- numbers

  lemma {:induction false} NumberIsBigEndian(s: Octets)
    ensures BigEndianValue(s) == Number(s) < Range(|s|)
  {
    if s != [] {
      var r := Reversed(s);
      NumberIsBigEndian(s[..|s| - 1]);
      assert r[1..] == Reversed(s[..|s| - 1]);
    }
  }

  /** The first byte carries the sign. */
  lemma {:induction false} FirstByteDecides(s: Octets)
    requires s != []
    ensures s[0] * Range(|s| - 1) <= Number(s) < (s[0] + 1) * Range(|s| - 1)
  {
    if |s| == 1 {
      assert Number(s) == 0x100 * Number([]) + s[0];
    } else {
      var first: int := s[0];
      FirstByteDecides(s[..|s| - 1]);
      Scaled(first, Range(|s| - 2));
      Scaled(first + 1, Range(|s| - 2));
    }
  }

  lemma Scaled(x: int, y: int)
    ensures 0x100 * (x * y) == x * (0x100 * y)
  {
  }

  lemma SignedNumberIsBigEndian(s: Octets)
    requires |s| in {1, 2, 4, 8}
    ensures SignedBEValue(s) == SignedNumber(s)
    ensures SignedNumber(s) >= 0 <==> s[0] < 0x80
    ensures s[0] < 0x80 ==> SignedNumber(s) == Number(s)
  {
    hide Number, BigEndianValue, Range;
    NumberIsBigEndian(s);
    FirstByteDecides(s);
    LowerRanges();
    RangeValues();
    SignBit(s[0], Number(s), Range(|s| - 1));
  }

  lemma SignBit(first: int, u: int, low: nat)
    requires first * low <= u < (first + 1) * low
    ensures u < 0x80 * low <==> first < 0x80
  {
    if first < 0x80 {
      NoMore(first + 1, 0x80, low);
    } else {
      NoMore(0x80, first, low);
    }
  }

  lemma NoMore(x: int, y: int, k: nat)
    requires x <= y
    ensures x * k <= y * k
  {
  }

  lemma LowerRanges()
    ensures Range(0) == 1 && Range(1) == 0x100 && Range(3) == 0x100_0000 && Range(7) == 0x100_0000_0000_0000
  {
    assert Range(5) == 0x100_0000_0000;
  }

  // ---------------------------------------------------------------- what load writes

  ghost function TinyForm(f: Family): Option<int>
  {
    match f
    case StringFamily => Some(0x80)
    case ListFamily => Some(0x90)
    case MapFamily => Some(0xA0)
    case BytesFamily => None
  }

  ghost function WideForm(f: Family): int
  {
    match f
    case StringFamily => 0xD0
    case ListFamily => 0xD4
    case MapFamily => 0xD8
    case BytesFamily => 0xCC
  }

  lemma HeaderAnnounces(f: Family, n: nat)
    requires n <= INT32_MAX
    ensures Announces(SizeHeader(f, n), n, TinyForm(f), WideForm(f))
  {
    RangeValues();
    if 0x100 <= n < 0x1_0000 {
      BigEndianRoundTrip(2, n);
      NumberIsBigEndian(BigEndian(2, n));
      assert SizeHeader(f, n)[1..] == BigEndian(2, n);
    } else if 0x1_0000 <= n {
      SignedBERoundTrip(4, n);
      SignedNumberIsBigEndian(SignedBE(4, n));
      assert SizeHeader(f, n)[1..] == SignedBE(4, n);
    }
  }

  lemma IntegerIsSpelled(n: int)
    requires INT64_MIN <= n <= INT64_MAX
    ensures SpellsInteger(n, IntegerBytes(n))
  {
    RangeValues();
    if !(-0x10 <= n < 0x80) {
      var w := |IntegerBytes(n)| - 1;
      assert IntegerBytes(n)[1..] == SignedBE(w, n);
      SignedBERoundTrip(w, n);
      SignedNumberIsBigEndian(SignedBE(w, n));
    }
  }

  lemma TextIsSpelled(f: Family, text: Octets)
    requires |text| <= INT32_MAX
    ensures SpellsText(text, SizeHeader(f, |text|) + text, TinyForm(f), WideForm(f))
  {
    hide Announces, SizeHeader;
    HeaderAnnounces(f, |text|);
    Joined(SizeHeader(f, |text|), text);
  }

  /** What load writes for a value without oversized structures is a spelling of it. */
  lemma {:induction false} LoadedIsSpelled(writer: Check, v: Value)
    requires Representable(v) && Loads(writer, v) && Recoverable(writer, v)
    ensures Spells(v, Emit(writer, v).bytes)
    decreases v, 0
  {
    hide SizeHeader, Announces, SpellsText, SpellsInteger, IntegerBytes, StructureHeader, EmitAll, SpellsAll, Accepts;
    match v
    case Null =>
    case Boolean(_) =>
    case Integer(n) => IntegerIsSpelled(n);
    case Float(_) =>
    case String(text) => TextIsSpelled(StringFamily, text);
    case Bytes(octets) => TextIsSpelled(BytesFamily, octets);
    case List(items) =>
      HeaderAnnounces(ListFamily, |items|);
      Joined(SizeHeader(ListFamily, |items|), EmitAll(writer, items).bytes);
      AllLoadedAreSpelled(writer, items);
    case Dictionary(pairs) =>
      HeaderAnnounces(MapFamily, |pairs| / 2);
      Joined(SizeHeader(MapFamily, |pairs| / 2), EmitAll(writer, pairs).bytes);
      AllLoadedAreSpelled(writer, pairs);
    case Structure(code, fields) =>
      StructureHeaderBytes(writer, code, |fields|);
      AcceptedCodesFitOneByte(writer, code);
      Joined(StructureHeader(code, |fields|).bytes, EmitAll(writer, fields).bytes);
      AllLoadedAreSpelled(writer, fields);
  }

  lemma {:induction false} AllLoadedAreSpelled(writer: Check, vs: seq<Value>)
    requires AllRepresentable(vs) && AllLoad(writer, vs) && AllRecoverable(writer, vs)
    ensures SpellsAll(vs, EmitAll(writer, vs).bytes)
    decreases vs, 0
  {
    if vs != [] {
      LoadedIsSpelled(writer, vs[0]);
      AllLoadedAreSpelled(writer, vs[1..]);
      Joined(Emit(writer, vs[0]).bytes, EmitAll(writer, vs[1..]).bytes);
    }
  }

  // ---------------------------------------------------------------- what unload reads

  lemma AnnouncedIsRead(f: Family, h: Octets, n: nat, tail: Octets)
    requires Announces(h, n, TinyForm(f), WideForm(f))
    ensures ReadSize(f, h[0], h[1..] + tail) == Sized(n, tail)
    ensures MarkerTypeOf(h[0]) ==
            match f
            case StringFamily => StringMark
            case BytesFamily => BytesMark
            case ListFamily => ListMark
            case MapFamily => MapMark
  {
    Joined(h[1..], tail);
    assert |h| == 1 ==> h[1..] + tail == tail;
    if |h| == 3 {
      NumberIsBigEndian(h[1..]);
    } else if |h| == 5 {
      SignedNumberIsBigEndian(h[1..]);
    }
  }

  lemma IntegerIsRead(reader: Check, n: int, b: Octets, target: Value, tail: Octets)
    requires SpellsInteger(n, b)
    ensures Decode(reader, target, b + tail) == Parsed(Success, Integer(n), tail)
  {
    hide SignedBEValue, SignedNumber, Decode;
    assert (b + tail)[1..] == b[1..] + tail;
    Joined(b[1..], tail);
    assert |b| == 1 ==> b[1..] + tail == tail;
    if |b| > 1 {
      SignedNumberIsBigEndian(b[1..]);
    }
    DecodeIntegerStep(reader, target, b + tail);
  }

  /** Every spelling of a value with readable codes is unloaded as that value, whatever the
      target held, and exactly its bytes are taken. */
  lemma {:induction false} SpelledIsUnloaded(reader: Check, v: Value, b: Octets, target: Value, tail: Octets)
    requires Spells(v, b) && Recoverable(reader, v)
    ensures Decode(reader, target, b + tail) == Parsed(Success, v, tail)
    decreases v, 0
  {
    hide Announces, SpellsText, SpellsInteger, DecodeMany;
    match v
    case Null =>
    case Boolean(_) =>
    case Integer(n) => IntegerIsRead(reader, n, b, target, tail);
    case Float(bits) => FloatIsRead(reader, bits, b, target, tail);
    case String(text) => TextIsRead(reader, StringFamily, text, b, target, tail);
    case Bytes(octets) => TextIsRead(reader, BytesFamily, octets, b, target, tail);
    case List(items) =>
      var k :| 0 <= k <= |b| && Announces(b[..k], |items|, Some(0x90), 0xD4) && SpellsAll(items, b[k..]);
      SequenceIsRead(reader, ListFamily, items, b, k, target, tail);
    case Dictionary(pairs) =>
      var k :| 0 <= k <= |b| && Announces(b[..k], |pairs| / 2, Some(0xA0), 0xD8) && SpellsAll(pairs, b[k..]);
      SequenceIsRead(reader, MapFamily, pairs, b, k, target, tail);
    case Structure(code, fields) =>
      SpelledAreUnloaded(reader, false, fields, b[2..], Nulls(|fields|), tail);
      StructureIsRead(reader, code, fields, b, target, tail);
  }

  lemma StructureIsRead(reader: Check, code: int, fields: seq<Value>, b: Octets, target: Value, tail: Octets)
    requires |fields| < 0x10 && |b| >= 2 && b[0] == 0xB0 + |fields| && code == b[1] < 0x80 && Accepts(reader, code)
    requires DecodeMany(reader, false, Nulls(|fields|), b[2..] + tail) == ParsedMany(Success, fields, tail)
    ensures Decode(reader, target, b + tail) == Parsed(Success, Structure(code, fields), tail)
  {
    hide Decode, DecodeMany;
    var input := b + tail;
    assert input[1..][1..] == b[2..] + tail && input[1..][..1] == [code];
    SignedNumberIsBigEndian([code]);
    assert Number([code]) == code by { assert Number([]) == 0 && [code][..0] == []; }
    DecodeStructureCases(reader, target, input, |fields|, code);
  }

  lemma FloatIsRead(reader: Check, bits: Octets, b: Octets, target: Value, tail: Octets)
    requires Spells(Float(bits), b)
    ensures Decode(reader, target, b + tail) == Parsed(Success, Float(bits), tail)
  {
    var body := (b + tail)[1..];
    assert body[..8] == b[1..];
    assert forall i :: 0 <= i < 8 ==> Reversed(b[1..])[i] == b[8 - i];
    assert Reversed(body[..8]) == bits && body[8..] == tail;
  }

  lemma Nonempty(h: Octets, n: nat, f: Family)
    requires Announces(h, n, TinyForm(f), WideForm(f))
    ensures h != []
  {
  }

  lemma TextIsRead(reader: Check, f: Family, text: Octets, b: Octets, target: Value, tail: Octets)
    requires f == StringFamily || f == BytesFamily
    requires SpellsText(text, b, TinyForm(f), WideForm(f))
    ensures Decode(reader, target, b + tail) ==
            Parsed(Success, if f == BytesFamily then Bytes(text) else String(text), tail)
  {
    hide Announces, ReadSize, Decode, MarkerTypeOf;
    var k :| 0 <= k <= |b| && Announces(b[..k], |text|, TinyForm(f), WideForm(f)) && b[k..] == text;
    Nonempty(b[..k], |text|, f);
    AnnouncedIsRead(f, b[..k], |text|, text + tail);
    assert b == b[..k] + text;
    OpeningByte(b[..k], text, tail);
    Joined(text, tail);
    DecodeTextStep(reader, target, b + tail, f);
  }

  lemma {:induction false} SequenceIsRead(reader: Check, f: Family, vs: seq<Value>, b: Octets, k: nat, target: Value,
                                          tail: Octets)
    requires f == ListFamily || (f == MapFamily && |vs| % 2 == 0)
    requires k <= |b| && Announces(b[..k], Count(f, vs), TinyForm(f), WideForm(f)) && SpellsAll(vs, b[k..])
    requires AllRecoverable(reader, vs)
    ensures Decode(reader, target, b + tail) ==
            Parsed(Success, if f == MapFamily then Dictionary(vs) else List(vs), tail)
    decreases vs, 1
  {
    hide Announces, SpellsAll, Decode, DecodeMany, ReadSize;
    Nonempty(b[..k], Count(f, vs), f);
    AnnouncedIsRead(f, b[..k], Count(f, vs), b[k..] + tail);
    assert (b + tail)[1..] == b[..k][1..] + (b[k..] + tail);
    SpelledAreUnloaded(reader, true, vs, b[k..], Slots(f, target, Count(f, vs)), tail);
    DecodeSequenceStep(reader, target, b + tail, f, Count(f, vs), b[k..] + tail);
  }

  lemma {:induction false} SpelledAreUnloaded(reader: Check, strict: bool, vs: seq<Value>, b: Octets,
                                              targets: seq<Value>, tail: Octets)
    requires SpellsAll(vs, b) && AllRecoverable(reader, vs) && |targets| == |vs|
    ensures DecodeMany(reader, strict, targets, b + tail) == ParsedMany(Success, vs, tail)
    decreases vs, 0
  {
    hide Spells, Decode;
    if vs == [] {
      assert b + tail == tail;
    } else {
      var k :| 0 <= k <= |b| && Spells(vs[0], b[..k]) && SpellsAll(vs[1..], b[k..]);
      assert b + tail == b[..k] + (b[k..] + tail);
      SpelledIsUnloaded(reader, vs[0], b[..k], targets[0], b[k..] + tail);
      DecodeManyStep(reader, strict, targets, b + tail, vs[0], b[k..] + tail);
      SpelledAreUnloaded(reader, strict, vs[1..], b[k..], targets[1..], tail);
    }
  }
}
