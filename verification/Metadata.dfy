/** What the entries of a summary's metadata leave in the session, on the bytes of their keys. */
module Metadata {
  import opened Bytes
  import opened Values
  import opened Signatures
  import opened Storage
  import opened Sessions

  datatype Kind = Text | Many

  /** Entry j of the metadata gives this key a value of this kind, a text or a list. */
  ghost predicate Gives(pairs: seq<Value>, j: int, key: Octets, kind: Kind)
  {
    0 <= j && 2 * j + 1 < |pairs| && pairs[2 * j] == String(key) &&
    if kind == Text then pairs[2 * j + 1].String? else pairs[2 * j + 1].List?
  }

  /** Entry j is the last one that gives the key such a value. */
  ghost predicate LastGiving(pairs: seq<Value>, i: nat, j: int, key: Octets, kind: Kind)
  {
    i <= j && Gives(pairs, j, key, kind) && forall k :: j < k ==> !Gives(pairs, k, key, kind)
  }

  ghost predicate NoneGiving(pairs: seq<Value>, i: nat, key: Octets, kind: Kind)
  {
    forall k :: i <= k ==> !Gives(pairs, k, key, kind)
  }

  lemma FromNext(pairs: seq<Value>, i: nat, key: Octets, kind: Kind)
    ensures forall j :: LastGiving(pairs, i, j, key, kind) <==>
                        LastGiving(pairs, i + 1, j, key, kind) ||
                        (j == i && Gives(pairs, i, key, kind) && NoneGiving(pairs, i + 1, key, kind))
    ensures NoneGiving(pairs, i, key, kind) <==> NoneGiving(pairs, i + 1, key, kind) && !Gives(pairs, i, key, kind)
  {
  }

  // ---------------------------------------------------------------- failures

  /** A failure's code and message are the last texts given for "code" and for "message"; one
      that is not given stays what it was before. */
  lemma FailureHasLastTexts(version: Version, s: Session, pairs: seq<Value>, fields: seq<Value>)
    requires s.data == List([Dictionary(pairs)] + fields) && s.dataType == 0x7F
    ensures var code, message := [0x63, 0x6F, 0x64, 0x65], [0x6D, 0x65, 0x73, 0x73, 0x61, 0x67, 0x65];
            var before, after := s.failure, Summarised(version, s).failure;
            (before.Some? ==> after.Some?) &&
            (forall j :: LastGiving(pairs, 0, j, code, Text) ==> after.Some? && after.value.code == pairs[2 * j + 1]) &&
            (forall j :: LastGiving(pairs, 0, j, message, Text) ==>
              after.Some? && after.value.message == pairs[2 * j + 1]) &&
            (NoneGiving(pairs, 0, code, Text) && after.Some? ==>
              after.value.code == if before.Some? then before.value.code else Null) &&
            (NoneGiving(pairs, 0, message, Text) && after.Some? ==>
              after.value.message == if before.Some? then before.value.message else Null)
  {
    FailureFrom(version, s.(responses := s.responses + 1, metadata := []), pairs, 0);
  }

  lemma {:induction false} FailureFrom(version: Version, s: Session, pairs: seq<Value>, i: nat)
    requires 2 * i <= |pairs| && s.dataType == 0x7F
    ensures var code, message := [0x63, 0x6F, 0x64, 0x65], [0x6D, 0x65, 0x73, 0x73, 0x61, 0x67, 0x65];
            var before, after := s.failure, ExtractFrom(version, s, pairs, i).failure;
            (before.Some? ==> after.Some?) &&
            (forall j :: LastGiving(pairs, i, j, code, Text) ==> after.Some? && after.value.code == pairs[2 * j + 1]) &&
            (forall j :: LastGiving(pairs, i, j, message, Text) ==>
              after.Some? && after.value.message == pairs[2 * j + 1]) &&
            (NoneGiving(pairs, i, code, Text) && after.Some? ==>
              after.value.code == if before.Some? then before.value.code else Null) &&
            (NoneGiving(pairs, i, message, Text) && after.Some? ==>
              after.value.message == if before.Some? then before.value.message else Null)
    decreases |pairs| - 2 * i
  {
    var code, message := [0x63, 0x6F, 0x64, 0x65], [0x6D, 0x65, 0x73, 0x73, 0x61, 0x67, 0x65];
    if 2 * i + 1 < |pairs| {
      FailureEntry(version, s, pairs[2 * i], pairs[2 * i + 1]);
      FailureFrom(version, ExtractEntry(version, s, pairs[2 * i], pairs[2 * i + 1]), pairs, i + 1);
      FromNext(pairs, i, code, Text);
      FromNext(pairs, i, message, Text);
    }
  }

  /** One entry of a FAILURE: which of the two texts it gives, if any. */
  lemma FailureEntry(version: Version, s: Session, key: Value, value: Value)
    requires s.dataType == 0x7F
    ensures var code, message := [0x63, 0x6F, 0x64, 0x65], [0x6D, 0x65, 0x73, 0x73, 0x61, 0x67, 0x65];
            var t := ExtractEntry(version, s, key, value);
            t.dataType == 0x7F &&
            if value.String? && key == String(code) then
              t.failure == Some(Failure(value, if s.failure.Some? then s.failure.value.message else Null))
            else if value.String? && key == String(message) then
              t.failure == Some(Failure(if s.failure.Some? then s.failure.value.code else Null, value))
            else t.failure == s.failure
  {
    assert |CODE_KEY| == 4 && |MESSAGE_KEY| == 7 && |BOOKMARK_KEY| == 8 && |SERVER_KEY| == 6;
    assert |FIELDS_KEY| == 6 && |CONNECTION_ID_KEY| == 13;
  }

  // ---------------------------------------------------------------- field names

  /** The field names are the last list given for "fields", with null for what is not a text. */
  ghost predicate AreNames(names: Option<seq<Value>>, list: Value)
  {
    list.List? && names.Some? && |names.value| == |list.items| &&
    forall k :: 0 <= k < |list.items| ==>
      names.value[k] == if list.items[k].String? then list.items[k] else Null
  }

  lemma FieldNamesAreLastList(version: Version, s: Session, pairs: seq<Value>, fields: seq<Value>)
    requires s.data == List([Dictionary(pairs)] + fields)
    ensures var key := [0x66, 0x69, 0x65, 0x6C, 0x64, 0x73];
            var names := Summarised(version, s).fieldNames;
            (forall j :: LastGiving(pairs, 0, j, key, Many) ==> AreNames(names, pairs[2 * j + 1])) &&
            (NoneGiving(pairs, 0, key, Many) ==> names == s.fieldNames)
  {
    FieldNamesFrom(version, s.(responses := s.responses + 1, metadata := []), pairs, 0);
  }

  lemma {:induction false} FieldNamesFrom(version: Version, s: Session, pairs: seq<Value>, i: nat)
    requires 2 * i <= |pairs|
    ensures var key := [0x66, 0x69, 0x65, 0x6C, 0x64, 0x73];
            var names := ExtractFrom(version, s, pairs, i).fieldNames;
            (forall j :: LastGiving(pairs, i, j, key, Many) ==> AreNames(names, pairs[2 * j + 1])) &&
            (NoneGiving(pairs, i, key, Many) ==> names == s.fieldNames)
    decreases |pairs| - 2 * i
  {
    var key := [0x66, 0x69, 0x65, 0x6C, 0x64, 0x73];
    if 2 * i + 1 < |pairs| {
      FieldNamesEntry(version, s, pairs[2 * i], pairs[2 * i + 1]);
      FieldNamesFrom(version, ExtractEntry(version, s, pairs[2 * i], pairs[2 * i + 1]), pairs, i + 1);
      FromNext(pairs, i, key, Many);
    }
  }

  lemma FieldNamesEntry(version: Version, s: Session, key: Value, value: Value)
    ensures var names := ExtractEntry(version, s, key, value).fieldNames;
            if key == String([0x66, 0x69, 0x65, 0x6C, 0x64, 0x73]) && value.List? then AreNames(names, value)
            else names == s.fieldNames
  {
    assert |CODE_KEY| == 4 && |MESSAGE_KEY| == 7 && |BOOKMARK_KEY| == 8 && |SERVER_KEY| == 6;
    assert |CONNECTION_ID_KEY| == 13;
    assert FIELDS_KEY[0] == 0x66 && SERVER_KEY[0] == 0x73;
  }

  // ---------------------------------------------------------------- the other entries

  /** These keys are not kept in the metadata: "bookmark", "server" and "fields"; for version 3
      "connection_id"; and for a FAILURE "code" and "message". */
  ghost predicate IsTakenOut(version: Version, dataType: int, key: Value)
  {
    key == String([0x62, 0x6F, 0x6F, 0x6B, 0x6D, 0x61, 0x72, 0x6B]) ||
    key == String([0x73, 0x65, 0x72, 0x76, 0x65, 0x72]) || key == String([0x66, 0x69, 0x65, 0x6C, 0x64, 0x73]) ||
    (version == V3 &&
     key == String([0x63, 0x6F, 0x6E, 0x6E, 0x65, 0x63, 0x74, 0x69, 0x6F, 0x6E, 0x5F, 0x69, 0x64])) ||
    (dataType == 0x7F &&
     (key == String([0x63, 0x6F, 0x64, 0x65]) || key == String([0x6D, 0x65, 0x73, 0x73, 0x61, 0x67, 0x65])))
  }

  /** The metadata consists of the entries at these places, in their order. */
  ghost predicate HoldsEntries(metadata: seq<Value>, pairs: seq<Value>, places: seq<nat>)
  {
    |metadata| == 2 * |places| && (forall k, l :: 0 <= k < l < |places| ==> places[k] < places[l]) &&
    forall k :: 0 <= k < |places| ==>
      2 * places[k] + 1 < |pairs| &&
      metadata[2 * k] == pairs[2 * places[k]] && metadata[2 * k + 1] == pairs[2 * places[k] + 1]
  }

  /** A summary replaces the metadata by its own entries, in order, without those taken out. */
  lemma MetadataIsReplaced(version: Version, s: Session, pairs: seq<Value>, fields: seq<Value>)
    returns (places: seq<nat>)
    requires s.data == List([Dictionary(pairs)] + fields)
    ensures HoldsEntries(Summarised(version, s).metadata, pairs, places)
    ensures forall j: nat :: j in places <==> 2 * j + 1 < |pairs| && !IsTakenOut(version, s.dataType, pairs[2 * j])
  {
    var counted := s.(responses := s.responses + 1, metadata := []);
    var more;
    more, places := EntriesFrom(version, counted, pairs, 0);
    assert [] + more == more;
  }

  lemma {:induction false} EntriesFrom(version: Version, s: Session, pairs: seq<Value>, i: nat)
    returns (more: seq<Value>, places: seq<nat>)
    requires 2 * i <= |pairs|
    ensures ExtractFrom(version, s, pairs, i).metadata == s.metadata + more && HoldsEntries(more, pairs, places)
    ensures forall j: nat :: j in places <==>
                             i <= j && 2 * j + 1 < |pairs| && !IsTakenOut(version, s.dataType, pairs[2 * j])
    decreases |pairs| - 2 * i
  {
    if 2 * i + 1 >= |pairs| {
      return [], [];
    }
    hide HoldsEntries, ExtractEntry, IsTakenOut;
    var key, value := pairs[2 * i], pairs[2 * i + 1];
    OneEntry(version, s, key, value);
    more, places := EntriesFrom(version, ExtractEntry(version, s, key, value), pairs, i + 1);
    if !IsTakenOut(version, s.dataType, key) {
      HoldsOneMore(more, pairs, places, i);
      Associative(s.metadata, [key, value], more);
      more, places := [key, value] + more, [i] + places;
    }
  }

  lemma Associative(a: seq<Value>, b: seq<Value>, c: seq<Value>)
    ensures a + b + c == a + (b + c)
  {
  }

  lemma HoldsOneMore(metadata: seq<Value>, pairs: seq<Value>, places: seq<nat>, i: nat)
    requires HoldsEntries(metadata, pairs, places) && 2 * i + 1 < |pairs|
    requires forall j :: j in places ==> i < j
    ensures HoldsEntries([pairs[2 * i], pairs[2 * i + 1]] + metadata, pairs, [i] + places)
    ensures forall j :: j in [i] + places <==> j == i || j in places
  {
    var m, p := [pairs[2 * i], pairs[2 * i + 1]] + metadata, [i] + places;
    assert forall k :: 0 < k < |p| ==> p[k] == places[k - 1] && p[k] in places;
    assert forall k :: 2 <= k < |m| ==> m[k] == metadata[k - 2];
    forall k | 0 < k < |p|
      ensures 2 * p[k] + 1 < |pairs| && m[2 * k] == pairs[2 * p[k]] && m[2 * k + 1] == pairs[2 * p[k] + 1]
    {
      var l := k - 1;
      assert metadata[2 * l] == pairs[2 * places[l]] && metadata[2 * l + 1] == pairs[2 * places[l] + 1];
    }
  }

  lemma OneEntry(version: Version, s: Session, key: Value, value: Value)
    ensures var t := ExtractEntry(version, s, key, value);
            t.dataType == s.dataType &&
            t.metadata == s.metadata + if IsTakenOut(version, s.dataType, key) then [] else [key, value]
  {
    assert s.metadata + [] == s.metadata;
  }
}
