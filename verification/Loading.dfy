/** load as the implementation runs it: writing a value into a BoltBuffer. */
module Loading {
  import opened Bytes
  import opened Values
  import opened Signatures
  import opened PackStream
  import opened Buffering

  // ---------------------------------------------------------------- load

  method LoadInteger(buffer: BoltBuffer, n: int)
    requires buffer.Valid() && INT64_MIN <= n <= INT64_MAX
    modifies buffer, buffer.data
    ensures buffer.Valid() && buffer.Appended(IntegerBytes(n))
  {
    RangeValues();
    if -0x10 <= n < 0x80 {
      buffer.LoadU8(n % 256);
    } else if INT8_MIN <= n <= INT8_MAX {
      MarkedSigned(buffer, 0xC8, 1, n);
    } else if INT16_MIN <= n <= INT16_MAX {
      MarkedSigned(buffer, 0xC9, 2, n);
    } else if INT32_MIN <= n <= INT32_MAX {
      MarkedSigned(buffer, 0xCA, 4, n);
    } else {
      MarkedSigned(buffer, 0xCB, 8, n);
    }
  }

  method MarkedSigned(buffer: BoltBuffer, marker: Byte, width: nat, n: int)
    requires buffer.Valid() && width > 0 && -(Range(width) / 2) <= n < Range(width) / 2
    modifies buffer, buffer.data
    ensures buffer.Valid() && buffer.Appended([marker] + SignedBE(width, n))
  {
    ghost var before := buffer.Contents();
    buffer.LoadU8(marker);
    buffer.LoadSigned(width, n);
    Associative(before, [marker], SignedBE(width, n));
  }

  method LoadSizeHeader(buffer: BoltBuffer, f: Family, n: nat)
    requires buffer.Valid() && n <= INT32_MAX
    modifies buffer, buffer.data
    ensures buffer.Valid() && buffer.Appended(SizeHeader(f, n))
  {
    RangeValues();
    ghost var before := buffer.Contents();
    if n < 0x10 && f != BytesFamily {
      buffer.LoadU8(TinyMarker(f) + n);
    } else if n < 0x100 {
      buffer.LoadU8(SizedMarker(f));
      buffer.LoadU8(n);
      Associative(before, [SizedMarker(f)], [n]);
    } else if n < 0x1_0000 {
      buffer.LoadU8(SizedMarker(f) + 1);
      buffer.LoadU16be(n);
      Associative(before, [SizedMarker(f) + 1], BigEndian(2, n));
    } else {
      MarkedSigned(buffer, SizedMarker(f) + 2, 4, n);
    }
  }

  method LoadText(buffer: BoltBuffer, f: Family, text: Octets)
    requires buffer.Valid() && |text| <= INT32_MAX
    modifies buffer, buffer.data
    ensures buffer.Valid() && buffer.Appended(SizeHeader(f, |text|) + text)
  {
    ghost var before := buffer.Contents();
    LoadSizeHeader(buffer, f, |text|);
    buffer.Load(text);
    Associative(before, SizeHeader(f, |text|), text);
  }

  method LoadStructureHeader(buffer: BoltBuffer, code: int, size8: int) returns (status: Status)
    requires buffer.Valid() && INT8_MIN <= size8 <= INT8_MAX
    modifies buffer, buffer.data
    ensures buffer.Valid()
    ensures status == (if code < 0 || size8 < 0 || size8 >= 0x10 then Violation else Success)
    ensures buffer.Appended(if status == Success then [0xB0 + size8, AsInt8(code) % 256] else [])
  {
    if code < 0 || size8 < 0 || size8 >= 0x10 {
      assert buffer.Contents() == buffer.Contents() + [];
      return Violation;
    }
    buffer.LoadU8(0xB0 + size8);
    buffer.LoadU8(AsInt8(code) % 256);
    return Success;
  }

  method LoadScalar(check: Check, buffer: BoltBuffer, v: Value)
    requires buffer.Valid() && Representable(v) && (v.Null? || v.Boolean? || v.Integer? || v.Float?)
    modifies buffer, buffer.data
    ensures buffer.Valid() && Emit(check, v).status == Success && buffer.Appended(Emit(check, v).bytes)
  {
    match v {
      case Null => buffer.LoadU8(0xC0);
      case Boolean(flag) => buffer.LoadU8(if flag then 0xC3 else 0xC2);
      case Integer(n) => LoadInteger(buffer, n);
      case Float(bits) =>
        ghost var before := buffer.Contents();
        buffer.LoadU8(0xC1);
        buffer.LoadReversed(bits);
        Associative(before, [0xC1], Reversed(bits));
    }
  }

  /** Loads a value; on failure the bytes loaded before it stay in the buffer. */
  method Load(check: Check, buffer: BoltBuffer, v: Value) returns (status: Status)
    requires buffer.Valid() && Representable(v)
    modifies buffer, buffer.data
    ensures buffer.Valid()
    ensures status == Emit(check, v).status && buffer.Appended(Emit(check, v).bytes)
    decreases v, 0
  {
    match v {
      case String(text) => LoadText(buffer, StringFamily, text); return Success;
      case Bytes(octets) => LoadText(buffer, BytesFamily, octets); return Success;
      case List(items) => status := LoadSequence(check, buffer, ListFamily, |items|, items);
      case Dictionary(pairs) => status := LoadSequence(check, buffer, MapFamily, |pairs| / 2, pairs);
      case Structure(code, fields) => status := LoadStructure(check, buffer, code, fields);
      case _ => LoadScalar(check, buffer, v); return Success;
    }
  }

  method LoadSequence(check: Check, buffer: BoltBuffer, f: Family, n: nat, vs: seq<Value>) returns (status: Status)
    requires buffer.Valid() && n <= INT32_MAX && AllRepresentable(vs)
    modifies buffer, buffer.data
    ensures buffer.Valid() && status == EmitAll(check, vs).status
    ensures buffer.Appended(SizeHeader(f, n) + EmitAll(check, vs).bytes)
    decreases vs, 1
  {
    ghost var before, e := buffer.Contents(), EmitAll(check, vs);
    LoadSizeHeader(buffer, f, n);
    status := LoadAll(check, buffer, vs);
    Associative(before, SizeHeader(f, n), e.bytes);
  }

  method LoadStructure(check: Check, buffer: BoltBuffer, code: int, fields: seq<Value>) returns (status: Status)
    requires buffer.Valid() && AllRepresentable(fields)
    modifies buffer, buffer.data
    ensures buffer.Valid()
    ensures var header := StructureHeader(code, |fields|);
            if !Accepts(check, code) then status == UnsupportedType && buffer.Appended([])
            else if header.status != Success then status == header.status && buffer.Appended([])
            else status == EmitAll(check, fields).status && buffer.Appended(header.bytes + EmitAll(check, fields).bytes)
    decreases fields, 1
  {
    if Accepts(check, code) {
      ghost var before, e := buffer.Contents(), EmitAll(check, fields);
      status := LoadStructureHeader(buffer, code, AsInt8(|fields|));
      if status == Success {
        status := LoadAll(check, buffer, fields);
        Associative(before, StructureHeader(code, |fields|).bytes, e.bytes);
      }
    } else {
      assert buffer.Contents() == buffer.Contents() + [];
      status := UnsupportedType;
    }
  }

  /** The prefix of a run of loads extended by one. */
  lemma EmitAllNext(check: Check, vs: seq<Value>, i: nat)
    requires AllRepresentable(vs) && i < |vs| && EmitAll(check, vs[..i]).status == Success
    ensures var e := Emit(check, vs[i]);
            if e.status == Success then EmitAll(check, vs[..i + 1]) == Prefixed(EmitAll(check, vs[..i]).bytes, e)
            else EmitAll(check, vs) == Prefixed(EmitAll(check, vs[..i]).bytes, e)
  {
    var e := Emit(check, vs[i]);
    if e.status == Success {
      assert vs[..i + 1] == vs[..i] + [vs[i]];
      assert EmitAll(check, []) == Emitted(Success, []);
      assert EmitAll(check, [vs[i]]) == e by { assert e.bytes + [] == e.bytes; }
      EmitAllConcat(check, vs[..i], [vs[i]]);
    } else {
      assert vs == vs[..i] + vs[i..];
      EmitAllConcat(check, vs[..i], vs[i..]);
    }
  }

  method LoadAll(check: Check, buffer: BoltBuffer, vs: seq<Value>) returns (status: Status)
    requires buffer.Valid() && AllRepresentable(vs)
    modifies buffer, buffer.data
    ensures buffer.Valid()
    ensures status == EmitAll(check, vs).status && buffer.Appended(EmitAll(check, vs).bytes)
    decreases vs, 0
  {
    ghost var before, done := buffer.Contents(), [];
    for i := 0 to |vs|
      invariant buffer.Valid() && (buffer.data == old(buffer.data) || fresh(buffer.data))
      invariant EmitAll(check, vs[..i]) == Emitted(Success, done)
      invariant buffer.Appended(done)
    {
      ghost var e := Emit(check, vs[i]);
      EmitAllNext(check, vs, i);
      status := Load(check, buffer, vs[i]);
      Associative(before, done, e.bytes);
      done := done + e.bytes;
      if status != Success {
        return status;
      }
    }
    assert vs[..|vs|] == vs;
    return Success;
  }
}
