/** Which snapshot files a walk accepts, said without the walk: what a file contains is one thing,
    whether a snapshot may contain it another. */
module Acceptance {
  import opened Prelude
  import opened Varint
  import opened Snapshot
  import opened Stream
  import opened StreamTheorems
  import Base64

  /* Full consumption: what decodes stops decoding when anything is appended. */

  lemma ConsumeExtended(data: Bytes, extra: Bytes, offset: nat)
    requires ConsumeUvarint(data, offset).Ok?
    ensures ConsumeUvarint(data + extra, offset) == ConsumeUvarint(data, offset)
  {
    UvarintExtended(data, extra, offset, 0, InvalidVarint);
  }

  lemma SizedExtended(data: Bytes, extra: Bytes, offset: nat)
    requires Sized(data, offset).Ok?
    ensures Sized(data + extra, offset) == Sized(data, offset)
  {
    ConsumeExtended(data, extra, offset);
    var size := ConsumeUvarint(data, offset).value;
    assert (data + extra)[size.next..size.next + size.value] == data[size.next..size.next + size.value];
  }

  lemma {:induction false} ParseNamespacesExtended(data: Bytes, extra: Bytes, offset: nat, count: nat)
    requires offset <= |data| && ParseNamespaces(data, offset, count).Ok?
    ensures ParseNamespaces(data + extra, offset, count) == ParseNamespaces(data, offset, count)
    decreases count
  {
    hide ConsumeUvarint, Sized;
    if count > 0 {
      SizedExtended(data, extra, offset);
      ConsumeExtended(data, extra, Sized(data, offset).value.next);
      ParseNamespacesExtended(data, extra, ParseNamespace(data, offset).value.next, count - 1);
    }
  }

  lemma TrailingMetadataRejected(data: Bytes, extra: Bytes)
    requires DecodeNamespaces(data).Ok? && extra != []
    ensures DecodeNamespaces(data + extra) == Err(TrailingBytes)
  {
    hide ConsumeUvarint, ParseNamespaces;
    ConsumeExtended(data, extra, 1);
    var count := ConsumeUvarint(data, 1).value;
    ParseNamespacesExtended(data, extra, count.next, count.value);
  }

  lemma UintExtended(data: Bytes, extra: Bytes, offset: nat)
    requires OrderPreservingUint(data, offset).Ok?
    ensures OrderPreservingUint(data + extra, offset) == OrderPreservingUint(data, offset)
  {
    ConsumeExtended(data, extra, offset);
    var size := ConsumeUvarint(data, offset).value;
    assert (data + extra)[size.next..size.next + size.value] == data[size.next..size.next + size.value];
  }

  lemma TrailingHeightRejected(data: Bytes, extra: Bytes)
    requires DecodeHeight(data).Ok? && extra != []
    ensures DecodeHeight(data + extra) == Err(TrailingBytes)
  {
    hide OrderPreservingUint;
    UintExtended(data, extra, 0);
    UintExtended(data, extra, OrderPreservingUint(data, 0).value.next);
  }

  /* The fields of a record. */

  // The data from `offset` on are exactly these length-delimited fields.
  predicate FieldsStand(data: Bytes, offset: nat, fields: seq<Field>)
    decreases fields
  {
    if fields == [] then offset >= |data|
    else
      var tag := ConsumeUvarint(data, offset);
      tag.Ok? && tag.value.value == fields[0].number * 8 + 2
      && var value := Sized(data, tag.value.next);
         value.Ok? && value.value.value == fields[0].value && FieldsStand(data, value.value.next, fields[1..])
  }

  predicate KnownNumbers(fields: seq<Field>) {
    forall i | 0 <= i < |fields| :: 1 <= fields[i].number <= 4
  }

  // Each value stands under its number, and nothing else does.
  predicate HoldsJust(m: map<nat, Bytes>, fields: seq<Field>) {
    && (forall i | 0 <= i < |fields| :: fields[i].number in m && m[fields[i].number] == fields[i].value)
    && (forall n | n in m :: exists i :: 0 <= i < |fields| && fields[i].number == n)
  }

  lemma {:induction false} FieldsAccepted(data: Bytes, offset: nat, fields: seq<Field>, known: map<nat, Bytes>)
    requires FieldsStand(data, offset, fields) && KnownNumbers(fields) && AddFields(fields, known).Some?
    ensures ParseFields(data, offset, known) == Ok(AddFields(fields, known).value)
    decreases fields
  {
    hide ConsumeUvarint, Sized;
    if fields != [] {
      var f, rest := fields[0], fields[1..];
      assert forall i | 0 <= i < |rest| :: rest[i] == fields[i + 1];
      var field := ParseField(data, offset, known.Keys);
      assert field.Ok? && field.value.value == f;
      FieldsAccepted(data, field.value.next, rest, known[f.number := f.value]);
    }
  }

  lemma {:induction false} ParsedFields(data: Bytes, offset: nat, known: map<nat, Bytes>) returns (fields: seq<Field>)
    requires ParseFields(data, offset, known).Ok?
    ensures FieldsStand(data, offset, fields) && KnownNumbers(fields)
    ensures AddFields(fields, known) == Some(ParseFields(data, offset, known).value)
    decreases |data| - offset
  {
    hide ConsumeUvarint, Sized;
    fields := [];
    if offset < |data| {
      var field := ParseField(data, offset, known.Keys).value;
      var rest := ParsedFields(data, field.next, known[field.value.number := field.value.value]);
      fields := [field.value] + rest;
      assert fields[1..] == rest;
    }
  }

  // Accepted are exactly the sequences of length-delimited fields with distinct numbers from 1 to 4,
  // and the map then holds just their values.
  lemma FieldsExact(data: Bytes)
    ensures ParseFields(data, 0, map[]).Ok? <==>
            exists fields :: FieldsStand(data, 0, fields) && KnownNumbers(fields) && DistinctFields(fields)
    ensures forall fields | FieldsStand(data, 0, fields) && KnownNumbers(fields) && DistinctFields(fields) ::
              HoldsJust(ParseFields(data, 0, map[]).value, fields)
  {
    hide ParseFields, FieldsStand, KnownNumbers, AddFields;
    forall fields | FieldsStand(data, 0, fields) && KnownNumbers(fields) && DistinctFields(fields)
      ensures ParseFields(data, 0, map[]).Ok? && HoldsJust(ParseFields(data, 0, map[]).value, fields)
    {
      AddFieldsMeaning(fields, map[]);
      FieldsAccepted(data, 0, fields, map[]);
    }
    if ParseFields(data, 0, map[]).Ok? {
      var fields := ParsedFields(data, 0, map[]);
      AddFieldsMeaning(fields, map[]);
    }
  }

  /* What a file contains. */

  // The record that the bytes hold, if they hold one.
  function Held(raw: Bytes): Option<LogicalRecord> {
    var fields := ParseFields(raw, 0, map[]);
    if fields.Err? || 1 !in fields.value || 4 !in fields.value then None
    else
      var height := DecodeHeight(fields.value[4]);
      if height.Err? then None
      else Some(LogicalRecord(fields.value[1], Lookup(fields.value, 2), Lookup(fields.value, 3), height.value))
  }

  // Where the records that stand at a position end; None when other bytes stand there.
  function RecordsEnd(data: Bytes, position: nat, records: seq<LogicalRecord>): (end: Option<nat>)
    requires position <= |data|
    ensures end.Some? ==> position <= end.value <= |data|
    decreases records
  {
    if records == [] then Some(position)
    else
      var raw := ReadSized(data, position);
      if raw.Ok? && Held(raw.value.value) == Some(records[0]) then RecordsEnd(data, raw.value.next, records[1..])
      else None
  }

  function BodyEnd(data: Bytes, position: nat, snapshot: seq<LogicalNamespace>): Option<nat>
    requires position <= |data|
    decreases snapshot
  {
    if snapshot == [] then Some(position)
    else
      var end := RecordsEnd(data, position, snapshot[0].records);
      if end.Some? then BodyEnd(data, end.value, snapshot[1..]) else None
  }

  predicate Contains(metadata: Bytes, data: Bytes, snapshot: seq<LogicalNamespace>) {
    && DecodeNamespaces(metadata) == Ok(AnnounceAll(snapshot))
    && data != [] && data[0] == 1 && BodyEnd(data, 1, snapshot) == Some(|data|)
  }

  /* What a snapshot may contain. */

  predicate Allowed(source: Source, r: LogicalRecord) {
    && r.key != [] && r.height.block <= source.lastBlock
    && (source.hashes ==> |r.key| == 32 && r.value.Some? && |r.value.value| == 32)
  }

  // Keys strictly ascending in the order of the database, from `previous` on.
  predicate KeysAscend(source: Source, records: seq<LogicalRecord>, previous: Option<Bytes>) {
    records == []
    || (&& (previous.Some? ==> Less(previous.value, OrderKey(source, records[0].key)))
        && KeysAscend(source, records[1..], Some(OrderKey(source, records[0].key))))
  }

  predicate AllAllowed(source: Source, records: seq<LogicalRecord>) {
    forall i | 0 <= i < |records| :: Allowed(source, records[i])
  }

  // The same, as the code compares.
  predicate InOrder(source: Source, snapshot: seq<LogicalNamespace>) {
    && (forall i | 1 <= i < |snapshot| :: Less(snapshot[i - 1].name, snapshot[i].name))
    && (forall i | 0 <= i < |snapshot| ::
          AllAllowed(source, snapshot[i].records) && KeysAscend(source, snapshot[i].records, None))
  }

  // CouchDB compares the Base64 text of private hash keys; everything else is compared as it is.
  ghost predicate KeyPrecedes(source: Source, a: Bytes, b: Bytes) {
    if source.hashes && source.couchDB then Precedes(Base64.Encode(a), Base64.Encode(b)) else Precedes(a, b)
  }

  // Names ascend, and in each namespace the keys do; every record is allowed.
  ghost predicate WellFormed(source: Source, snapshot: seq<LogicalNamespace>) {
    && (forall i | 1 <= i < |snapshot| :: Precedes(snapshot[i - 1].name, snapshot[i].name))
    && (forall i | 0 <= i < |snapshot| :: AllAllowed(source, snapshot[i].records))
    && (forall i | 0 <= i < |snapshot| :: KeysPrecede(source, snapshot[i].records))
  }

  ghost predicate KeysPrecede(source: Source, records: seq<LogicalRecord>) {
    forall k | 1 <= k < |records| :: KeyPrecedes(source, records[k - 1].key, records[k].key)
  }

  lemma KeyLess(source: Source, a: Bytes, b: Bytes)
    ensures Less(OrderKey(source, a), OrderKey(source, b)) <==> KeyPrecedes(source, a, b)
  {
    LessExact(OrderKey(source, a), OrderKey(source, b));
  }

  lemma {:induction false} KeysAscendExact(source: Source, records: seq<LogicalRecord>, previous: Option<Bytes>)
    ensures KeysAscend(source, records, previous) <==>
            KeysPrecede(source, records)
            && (previous.Some? && records != [] ==> Less(previous.value, OrderKey(source, records[0].key)))
    decreases records
  {
    hide KeyPrecedes, OrderKey;
    if records != [] {
      var rest := records[1..];
      assert forall k | 1 <= k < |records| :: records[k] == rest[k - 1];
      assert forall k | 0 <= k < |rest| :: rest[k] == records[k + 1];
      KeysAscendExact(source, rest, Some(OrderKey(source, records[0].key)));
      if rest != [] { KeyLess(source, records[0].key, rest[0].key); }
      assert KeysPrecede(source, records)
             <==> KeysPrecede(source, rest) && (rest != [] ==> KeyPrecedes(source, records[0].key, rest[0].key)) by {
        KeysPrecedeCons(source, records);
      }
    }
  }

  lemma KeysPrecedeCons(source: Source, records: seq<LogicalRecord>)
    requires records != []
    ensures KeysPrecede(source, records) <==>
            KeysPrecede(source, records[1..]) && (|records| > 1 ==> KeyPrecedes(source, records[0].key, records[1].key))
  {
    hide KeyPrecedes;
    var rest := records[1..];
    assert forall k | 0 <= k < |rest| :: rest[k] == records[k + 1];
    if KeysPrecede(source, rest) && (|records| > 1 ==> KeyPrecedes(source, records[0].key, records[1].key)) {
      forall k | 1 <= k < |records| ensures KeyPrecedes(source, records[k - 1].key, records[k].key) {
        if k > 1 { assert KeyPrecedes(source, rest[k - 2].key, rest[k - 1].key); }
      }
    }
    if KeysPrecede(source, records) {
      forall k | 1 <= k < |rest| ensures KeyPrecedes(source, rest[k - 1].key, rest[k].key) {
        assert KeyPrecedes(source, records[k].key, records[k + 1].key);
      }
    }
  }

  lemma WellFormedOrder(source: Source, snapshot: seq<LogicalNamespace>)
    ensures WellFormed(source, snapshot) <==> InOrder(source, snapshot)
  {
    hide AllAllowed, Precedes, KeyPrecedes, KeysAscend, KeysPrecede, Less;
    forall i | 0 <= i < |snapshot|
      ensures KeysAscend(source, snapshot[i].records, None) <==> KeysPrecede(source, snapshot[i].records)
    {
      KeysAscendExact(source, snapshot[i].records, None);
    }
    forall i | 1 <= i < |snapshot|
      ensures Less(snapshot[i - 1].name, snapshot[i].name) <==> Precedes(snapshot[i - 1].name, snapshot[i].name)
    {
      LessExact(snapshot[i - 1].name, snapshot[i].name);
    }
  }

  /* The walk accepts exactly that. */

  lemma CheckExact(source: Source, name: Bytes, raw: Bytes, previous: Option<Bytes>)
    ensures var held := Held(raw);
            CheckRecord(source, name, raw, previous).Ok? <==>
              held.Some? && Allowed(source, held.value)
              && (previous.Some? ==> Less(previous.value, OrderKey(source, held.value.key)))
    ensures CheckRecord(source, name, raw, previous).Ok? ==>
              CheckRecord(source, name, raw, previous).value == ToRecord(name, Held(raw).value)
  {
    hide ParseFields, DecodeHeight, OrderKey;
  }

  lemma AllowedCons(source: Source, records: seq<LogicalRecord>)
    requires records != []
    ensures AllAllowed(source, records) <==> Allowed(source, records[0]) && AllAllowed(source, records[1..])
  {
    assert forall i | 1 <= i < |records| :: records[i] == records[1..][i - 1];
  }

  lemma {:induction false} WalkAccepts(source: Source, data: Bytes, position: nat, name: Bytes,
                                       records: seq<LogicalRecord>, previous: Option<Bytes>)
    requires position <= |data| && RecordsEnd(data, position, records).Some?
    requires AllAllowed(source, records) && KeysAscend(source, records, previous)
    ensures WalkRecords(source, data, position, name, |records|, previous)
            == Walk(ToRecords(name, records), Ok(RecordsEnd(data, position, records).value))
    decreases records
  {
    hide Held, ReadSized, CheckRecord, OrderKey, Allowed, AllAllowed;
    if records != [] {
      var raw := ReadSized(data, position).value;
      AllowedCons(source, records);
      CheckExact(source, name, raw.value, previous);
      WalkAccepts(source, data, raw.next, name, records[1..], Some(OrderKey(source, records[0].key)));
    }
  }

  lemma {:induction false} WalkedRecords(source: Source, data: Bytes, position: nat, name: Bytes, count: nat,
                                         previous: Option<Bytes>)
    returns (records: seq<LogicalRecord>)
    requires position <= |data| && WalkRecords(source, data, position, name, count, previous).end.Ok?
    ensures |records| == count && AllAllowed(source, records) && KeysAscend(source, records, previous)
    ensures RecordsEnd(data, position, records)
            == Some(WalkRecords(source, data, position, name, count, previous).end.value)
    decreases count
  {
    hide Held, ReadSized, CheckRecord, OrderKey, Allowed;
    records := [];
    if count > 0 {
      var raw := ReadSized(data, position).value;
      CheckExact(source, name, raw.value, previous);
      var first := Held(raw.value).value;
      var rest := WalkedRecords(source, data, raw.next, name, count - 1, Some(OrderKey(source, first.key)));
      records := [first] + rest;
      assert records[1..] == rest;
      AllowedCons(source, records);
    }
  }

  lemma {:induction false} BodyAccepted(source: Source, data: Bytes, position: nat, snapshot: seq<LogicalNamespace>)
    requires position <= |data| && BodyEnd(data, position, snapshot).Some? && InOrder(source, snapshot)
    ensures WalkNamespaces(source, data, position, AnnounceAll(snapshot))
            == Walk(AllRecords(snapshot), Ok(BodyEnd(data, position, snapshot).value))
    decreases snapshot
  {
    hide WalkRecords, RecordsEnd, AllAllowed, KeysAscend;
    if snapshot != [] {
      var ns, rest := snapshot[0], snapshot[1..];
      assert forall i | 0 <= i < |rest| :: rest[i] == snapshot[i + 1];
      assert forall i | 1 <= i < |rest| :: rest[i - 1] == snapshot[i];
      WalkAccepts(source, data, position, ns.name, ns.records, None);
      BodyAccepted(source, data, RecordsEnd(data, position, ns.records).value, rest);
      assert AnnounceAll(snapshot)[1..] == AnnounceAll(rest);
    }
  }

  lemma {:induction false} WalkedBody(source: Source, data: Bytes, position: nat, namespaces: seq<Namespace>)
    returns (snapshot: seq<LogicalNamespace>)
    requires position <= |data| && WalkNamespaces(source, data, position, namespaces).end.Ok?
    ensures AnnounceAll(snapshot) == namespaces
    ensures forall i | 0 <= i < |snapshot| ::
              AllAllowed(source, snapshot[i].records) && KeysAscend(source, snapshot[i].records, None)
    ensures BodyEnd(data, position, snapshot) == Some(WalkNamespaces(source, data, position, namespaces).end.value)
    decreases namespaces
  {
    hide WalkRecords, RecordsEnd, AllAllowed, KeysAscend;
    snapshot := [];
    if namespaces != [] {
      var ns := namespaces[0];
      var head := WalkRecords(source, data, position, ns.name, ns.records, None);
      var records := WalkedRecords(source, data, position, ns.name, ns.records, None);
      var rest := WalkedBody(source, data, head.end.value, namespaces[1..]);
      snapshot := [LogicalNamespace(ns.name, records)] + rest;
      assert snapshot[1..] == rest;
      assert namespaces == [ns] + namespaces[1..];
    }
  }

  // The walk accepts a pair of files exactly when they contain a well-formed snapshot: names and
  // keys strictly ascending, every version at or before the checkpoint, hashes of hash length.
  lemma WalkExact(source: Source, metadata: Bytes, data: Bytes)
    ensures WalkFile(source, metadata, data).error.None? <==>
            exists snapshot :: Contains(metadata, data, snapshot) && WellFormed(source, snapshot)
    ensures forall snapshot | Contains(metadata, data, snapshot) && WellFormed(source, snapshot) ::
              WalkFile(source, metadata, data) == Outcome(AllRecords(snapshot), None)
  {
    hide DecodeNamespaces, WalkNamespaces, BodyEnd, AllAllowed, KeysAscend, WellFormed;
    forall snapshot | Contains(metadata, data, snapshot) && WellFormed(source, snapshot)
      ensures WalkFile(source, metadata, data) == Outcome(AllRecords(snapshot), None)
    {
      WellFormedOrder(source, snapshot);
      assert NamesOrdered(AnnounceAll(snapshot));
      BodyAccepted(source, data, 1, snapshot);
    }
    if WalkFile(source, metadata, data).error.None? {
      var namespaces := ReadNamespaces(metadata).value;
      var snapshot := WalkedBody(source, data, 1, namespaces);
      forall i | 1 <= i < |snapshot| ensures Less(snapshot[i - 1].name, snapshot[i].name) {
        assert namespaces[i - 1].name == snapshot[i - 1].name && namespaces[i].name == snapshot[i].name;
      }
      WellFormedOrder(source, snapshot);
      assert Contains(metadata, data, snapshot) && WellFormed(source, snapshot);
    }
  }

  /* The parts of a file. */

  // Where these entries, which stand at an offset, end; None when other bytes stand there.
  function EntriesEnd(data: Bytes, offset: nat, namespaces: seq<Namespace>): Option<nat>
    decreases namespaces
  {
    if namespaces == [] then Some(offset)
    else
      var name := Sized(data, offset);
      if name.Err? || name.value.value != namespaces[0].name then None
      else
        var records := ConsumeUvarint(data, name.value.next);
        if records.Err? || records.value.value != namespaces[0].records then None
        else EntriesEnd(data, records.value.next, namespaces[1..])
  }

  lemma {:induction false} EntriesParse(data: Bytes, offset: nat, namespaces: seq<Namespace>)
    requires offset <= |data| && EntriesEnd(data, offset, namespaces).Some?
    ensures ParseNamespaces(data, offset, |namespaces|)
            == Ok(Parsed(namespaces, EntriesEnd(data, offset, namespaces).value))
    decreases namespaces
  {
    hide Sized, ConsumeUvarint;
    if namespaces != [] {
      var name := Sized(data, offset).value;
      var records := ConsumeUvarint(data, name.next).value;
      EntriesParse(data, records.next, namespaces[1..]);
      assert namespaces == [namespaces[0]] + namespaces[1..];
    }
  }

  lemma {:induction false} ParsedEntries(data: Bytes, offset: nat, count: nat)
    requires offset <= |data| && ParseNamespaces(data, offset, count).Ok?
    ensures var parsed := ParseNamespaces(data, offset, count).value;
            EntriesEnd(data, offset, parsed.value) == Some(parsed.next)
    decreases count
  {
    hide Sized, ConsumeUvarint;
    if count > 0 {
      var next := ParseNamespace(data, offset).value.next;
      ParsedEntries(data, next, count - 1);
      var rest := ParseNamespaces(data, next, count - 1).value;
      assert ParseNamespaces(data, offset, count).value.value[1..] == rest.value;
    }
  }

  // Metadata is the format byte, the number of namespaces, and that many entries, nothing else.
  lemma NamespacesExact(data: Bytes, namespaces: seq<Namespace>)
    ensures DecodeNamespaces(data) == Ok(namespaces) <==>
            && data != [] && data[0] == 1 && ConsumeUvarint(data, 1).Ok?
            && ConsumeUvarint(data, 1).value.value == |namespaces|
            && EntriesEnd(data, ConsumeUvarint(data, 1).value.next, namespaces) == Some(|data|)
  {
    hide ConsumeUvarint, ParseNamespaces, EntriesEnd;
    GuardRejectsNothing(data);
    var count := ConsumeUvarint(data, 1);
    if data != [] && count.Ok? {
      if EntriesEnd(data, count.value.next, namespaces).Some? { EntriesParse(data, count.value.next, namespaces); }
      if ParseNamespaces(data, count.value.next, count.value.value).Ok? {
        ParsedEntries(data, count.value.next, count.value.value);
      }
    }
  }

  // A version is the block and the transaction, nothing else.
  lemma HeightExact(data: Bytes, h: Height)
    ensures DecodeHeight(data) == Ok(h) <==>
            exists middle :: OrderPreservingUint(data, 0) == Ok(Parsed(h.block, middle))
                             && OrderPreservingUint(data, middle) == Ok(Parsed(h.transaction, |data|))
  {
    hide OrderPreservingUint;
    if DecodeHeight(data) == Ok(h) {
      var middle := OrderPreservingUint(data, 0).value.next;
      assert OrderPreservingUint(data, middle) == Ok(Parsed(h.transaction, |data|));
    }
  }

  // A record is its key, its version and at most a value and metadata, as fields in any order.
  lemma HeldExact(raw: Bytes, r: LogicalRecord)
    ensures Held(raw) == Some(r) <==>
            exists fields, version ::
              && FieldsStand(raw, 0, fields) && KnownNumbers(fields) && DistinctFields(fields)
              && DecodeHeight(version) == Ok(r.height)
              && Field(1, r.key) in fields && Field(4, version) in fields
              && (forall v :: Field(2, v) in fields <==> r.value == Some(v))
              && (forall v :: Field(3, v) in fields <==> r.metadata == Some(v))
  {
    hide ParseFields, DecodeHeight, FieldsStand;
    FieldsExact(raw);
    if fields :| FieldsStand(raw, 0, fields) && KnownNumbers(fields) && DistinctFields(fields) {
      var m := ParseFields(raw, 0, map[]).value;
      HoldsField(m, fields);
      if Held(raw) == Some(r) {
        assert Field(4, m[4]) in fields && DecodeHeight(m[4]) == Ok(r.height);
        assert forall v :: Field(2, v) in fields <==> r.value == Some(v);
        assert forall v :: Field(3, v) in fields <==> r.metadata == Some(v);
      }
    }
    forall fields, version | && FieldsStand(raw, 0, fields) && KnownNumbers(fields) && DistinctFields(fields)
                             && DecodeHeight(version) == Ok(r.height)
                             && Field(1, r.key) in fields && Field(4, version) in fields
                             && (forall v :: Field(2, v) in fields <==> r.value == Some(v))
                             && (forall v :: Field(3, v) in fields <==> r.metadata == Some(v))
      ensures Held(raw) == Some(r)
    {
      var m := ParseFields(raw, 0, map[]).value;
      HoldsField(m, fields);
      assert Lookup(m, 2) == r.value by { OptionalHeld(m, 2, r.value, fields); }
      assert Lookup(m, 3) == r.metadata by { OptionalHeld(m, 3, r.metadata, fields); }
    }
  }

  lemma HoldsField(m: map<nat, Bytes>, fields: seq<Field>)
    requires HoldsJust(m, fields)
    ensures forall n, v :: Field(n, v) in fields <==> n in m && m[n] == v
  {
    forall n, v ensures Field(n, v) in fields <==> n in m && m[n] == v {
      if n in m && m[n] == v {
        var i :| 0 <= i < |fields| && fields[i].number == n;
        assert fields[i] == Field(n, v);
      }
    }
  }

  lemma OptionalHeld(m: map<nat, Bytes>, n: nat, value: Option<Bytes>, fields: seq<Field>)
    requires forall k, v :: Field(k, v) in fields <==> k in m && m[k] == v
    requires forall v :: Field(n, v) in fields <==> value == Some(v)
    ensures Lookup(m, n) == value
  {
    if n in m { assert Field(n, m[n]) in fields; }
    if value.Some? { assert Field(n, value.value) in fields; }
  }
}
