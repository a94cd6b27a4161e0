/** What a walk over a snapshot file guarantees. */
module StreamTheorems {
  import opened Prelude
  import opened Varint
  import opened Snapshot
  import opened Stream
  import Base64

  /* Order: no key is yielded twice. */

  predicate InNamespace(records: seq<Record>, name: Bytes) {
    forall i | 0 <= i < |records| :: records[i].namespace == name
  }

  predicate KeysIncrease(source: Source, records: seq<Record>) {
    forall i, j | 0 <= i < j < |records| :: Less(OrderKey(source, records[i].key), OrderKey(source, records[j].key))
  }

  predicate KeysAfter(source: Source, records: seq<Record>, previous: Option<Bytes>) {
    previous.Some? ==> forall i | 0 <= i < |records| :: Less(previous.value, OrderKey(source, records[i].key))
  }

  predicate NoRepeatedKey(records: seq<Record>) {
    forall i, j | 0 <= i < j < |records| ::
      !(records[i].namespace == records[j].namespace && records[i].key == records[j].key)
  }

  lemma KeysPrepend(source: Source, record: Record, tail: seq<Record>, previous: Option<Bytes>)
    requires KeysIncrease(source, tail) && KeysAfter(source, tail, Some(OrderKey(source, record.key)))
    requires previous.Some? ==> Less(previous.value, OrderKey(source, record.key))
    ensures KeysIncrease(source, [record] + tail) && KeysAfter(source, [record] + tail, previous)
  {
    var all := [record] + tail;
    assert forall i | 1 <= i < |all| :: all[i] == tail[i - 1];
    if previous.Some? {
      forall i | 0 <= i < |all| ensures Less(previous.value, OrderKey(source, all[i].key)) {
        if i > 0 { LessTransitive(previous.value, OrderKey(source, record.key), OrderKey(source, tail[i - 1].key)); }
      }
    }
  }

  lemma CheckedRecord(source: Source, name: Bytes, raw: Bytes, previous: Option<Bytes>)
    requires CheckRecord(source, name, raw, previous).Ok?
    ensures var r := CheckRecord(source, name, raw, previous).value;
            r.namespace == name && (previous.Some? ==> Less(previous.value, OrderKey(source, r.key)))
  {
  }

  // Within a namespace the keys increase strictly, and a walk that ends well yields every record.
  lemma {:induction false} WalkRecordsOrdered(source: Source, data: Bytes, position: nat, name: Bytes, count: nat,
                                              previous: Option<Bytes>)
    requires position <= |data|
    ensures var w := WalkRecords(source, data, position, name, count, previous);
            && InNamespace(w.yielded, name) && KeysIncrease(source, w.yielded) && KeysAfter(source, w.yielded, previous)
            && (w.end.Ok? ==> |w.yielded| == count)
    decreases count
  {
    hide OrderKey, ReadSized, CheckRecord;
    if count > 0 {
      var raw := ReadSized(data, position);
      if raw.Ok? && CheckRecord(source, name, raw.value.value, previous).Ok? {
        CheckedRecord(source, name, raw.value.value, previous);
        var record := CheckRecord(source, name, raw.value.value, previous).value;
        var next := Some(OrderKey(source, record.key));
        WalkRecordsOrdered(source, data, raw.value.next, name, count - 1, next);
        var tail := WalkRecords(source, data, raw.value.next, name, count - 1, next).yielded;
        KeysPrepend(source, record, tail, previous);
        var all := [record] + tail;
        assert forall i | 1 <= i < |all| :: all[i] == tail[i - 1];
      }
    }
  }

  // Everything yielded belongs to one of the namespaces.
  predicate FromNamespaces(records: seq<Record>, namespaces: seq<Namespace>) {
    forall i | 0 <= i < |records| :: HasName(namespaces, records[i].namespace)
  }

  predicate HasName(namespaces: seq<Namespace>, name: Bytes) {
    exists k :: 0 <= k < |namespaces| && namespaces[k].name == name
  }

  predicate NamesUnique(namespaces: seq<Namespace>) {
    forall i, j | 0 <= i < j < |namespaces| :: namespaces[i].name != namespaces[j].name
  }

  lemma NoRepeatAcross(source: Source, head: seq<Record>, tail: seq<Record>, namespaces: seq<Namespace>)
    requires namespaces != [] && NamesUnique(namespaces)
    requires InNamespace(head, namespaces[0].name) && KeysIncrease(source, head)
    requires FromNamespaces(tail, namespaces[1..]) && NoRepeatedKey(tail)
    ensures FromNamespaces(head + tail, namespaces) && NoRepeatedKey(head + tail)
  {
    hide OrderKey;
    var all, rest := head + tail, namespaces[1..];
    forall i | 0 <= i < |tail|
      ensures tail[i].namespace != namespaces[0].name
      ensures HasName(namespaces, tail[i].namespace)
    {
      assert HasName(rest, tail[i].namespace);
      var k :| 0 <= k < |rest| && rest[k].name == tail[i].namespace;
      assert namespaces[k + 1].name == tail[i].namespace;
    }
    assert forall i | |head| <= i < |all| :: all[i] == tail[i - |head|];
    forall i, j | 0 <= i < j < |all|
      ensures !(all[i].namespace == all[j].namespace && all[i].key == all[j].key)
    {
      if j < |head| {
        LessIrreflexive(OrderKey(source, head[i].key));
      }
    }
  }

  lemma {:induction false} WalkNamespacesDistinct(source: Source, data: Bytes, position: nat,
                                                  namespaces: seq<Namespace>)
    requires position <= |data| && NamesUnique(namespaces)
    ensures var w := WalkNamespaces(source, data, position, namespaces);
            FromNamespaces(w.yielded, namespaces) && NoRepeatedKey(w.yielded)
    decreases namespaces
  {
    hide WalkRecords, OrderKey, InNamespace, KeysIncrease, KeysAfter;
    if namespaces != [] {
      var head := WalkRecords(source, data, position, namespaces[0].name, namespaces[0].records, None);
      WalkRecordsOrdered(source, data, position, namespaces[0].name, namespaces[0].records, None);
      if head.end.Ok? {
        WalkNamespacesDistinct(source, data, head.end.value, namespaces[1..]);
        var tail := WalkNamespaces(source, data, head.end.value, namespaces[1..]);
        NoRepeatAcross(source, head.yielded, tail.yielded, namespaces);
      } else {
        NoRepeatAcross(source, head.yielded, [], namespaces);
        assert head.yielded + [] == head.yielded;
      }
    }
  }

  // A walk, whether it succeeds or not, never yields the same namespace and key twice.
  lemma WalkNeverRepeats(source: Source, metadata: Bytes, data: Bytes)
    ensures NoRepeatedKey(WalkFile(source, metadata, data).yielded)
  {
    var namespaces := ReadNamespaces(metadata);
    if namespaces.Ok? && data != [] {
      forall i, j | 0 <= i < j < |namespaces.value| ensures namespaces.value[i].name != namespaces.value[j].name {
        NamesDistinct(namespaces.value, i, j);
      }
      WalkNamespacesDistinct(source, data, 1, namespaces.value);
    }
  }

  // For CouchDB the order of two different hash keys is always decided, one way or the other.
  lemma CouchOrderTotal(source: Source, a: Bytes, b: Bytes)
    requires a != b
    ensures Less(OrderKey(source, a), OrderKey(source, b)) <==> !Less(OrderKey(source, b), OrderKey(source, a))
  {
    if source.hashes && source.couchDB && Base64.Encode(a) == Base64.Encode(b) { Base64.EncodeInjective(a, b); }
    LessTotal(OrderKey(source, a), OrderKey(source, b));
    if Less(OrderKey(source, a), OrderKey(source, b)) && Less(OrderKey(source, b), OrderKey(source, a)) {
      LessTransitive(OrderKey(source, a), OrderKey(source, b), OrderKey(source, a));
      LessIrreflexive(OrderKey(source, a));
    }
  }

  /* Conservation: the metadata announces exactly what is yielded. */

  // How many records are in the namespaces that `keep` selects.
  function CountKept(records: seq<Record>, keep: Bytes -> bool): nat {
    if records == [] then 0
    else (if keep(records[0].namespace) then 1 else 0) + CountKept(records[1..], keep)
  }

  function Announced(namespaces: seq<Namespace>, keep: Bytes -> bool): nat {
    if namespaces == [] then 0
    else (if keep(namespaces[0].name) then namespaces[0].records else 0) + Announced(namespaces[1..], keep)
  }

  lemma {:induction false} CountKeptAppend(a: seq<Record>, b: seq<Record>, keep: Bytes -> bool)
    ensures CountKept(a + b, keep) == CountKept(a, keep) + CountKept(b, keep)
  {
    if a == [] {
      assert a + b == b;
    } else {
      assert (a + b)[1..] == a[1..] + b;
      CountKeptAppend(a[1..], b, keep);
    }
  }

  lemma {:induction false} CountKeptInNamespace(records: seq<Record>, name: Bytes, keep: Bytes -> bool)
    requires InNamespace(records, name)
    ensures CountKept(records, keep) == if keep(name) then |records| else 0
  {
    if records != [] { CountKeptInNamespace(records[1..], name, keep); }
  }

  lemma {:induction false} WalkNamespacesConserves(source: Source, data: Bytes, position: nat,
                                                   namespaces: seq<Namespace>, keep: Bytes -> bool)
    requires position <= |data| && WalkNamespaces(source, data, position, namespaces).end.Ok?
    ensures CountKept(WalkNamespaces(source, data, position, namespaces).yielded, keep) == Announced(namespaces, keep)
    decreases namespaces
  {
    hide WalkRecords, KeysIncrease, KeysAfter;
    if namespaces != [] {
      var head := WalkRecords(source, data, position, namespaces[0].name, namespaces[0].records, None);
      WalkRecordsOrdered(source, data, position, namespaces[0].name, namespaces[0].records, None);
      CountKeptInNamespace(head.yielded, namespaces[0].name, keep);
      WalkNamespacesConserves(source, data, head.end.value, namespaces[1..], keep);
      CountKeptAppend(head.yielded, WalkNamespaces(source, data, head.end.value, namespaces[1..]).yielded, keep);
    }
  }

  // After a successful walk the records of any selection of namespaces are as many as announced.
  lemma WalkConserves(source: Source, metadata: Bytes, data: Bytes, keep: Bytes -> bool)
    requires WalkFile(source, metadata, data).error.None?
    ensures ReadNamespaces(metadata).Ok?
    ensures CountKept(WalkFile(source, metadata, data).yielded, keep)
            == Announced(ReadNamespaces(metadata).value, keep)
  {
    WalkNamespacesConserves(source, data, 1, ReadNamespaces(metadata).value, keep);
  }

  /* Full consumption: an accepted file stops being accepted when anything is appended. */

  lemma {:induction false} UvarintExtended(data: Bytes, extra: Bytes, offset: nat, i: nat, truncated: DecodeError)
    requires i <= 10 && offset <= |data| && Uvarint(data, offset, i, truncated).Ok?
    ensures Uvarint(data + extra, offset, i, truncated) == Uvarint(data, offset, i, truncated)
    decreases 10 - i
  {
    hide Room;
    if data[offset] >= 128 { UvarintExtended(data, extra, offset + 1, i + 1, truncated); }
  }

  lemma ReadSizedExtended(data: Bytes, extra: Bytes, position: nat)
    requires position <= |data| && ReadSized(data, position).Ok?
    ensures ReadSized(data + extra, position) == ReadSized(data, position)
  {
    UvarintExtended(data, extra, position, 0, UnexpectedEof);
    var size := Uvarint(data, position, 0, UnexpectedEof).value;
    assert (data + extra)[size.next..size.next + size.value] == data[size.next..size.next + size.value];
  }

  lemma {:induction false} WalkRecordsExtended(source: Source, data: Bytes, extra: Bytes, position: nat, name: Bytes,
                                               count: nat, previous: Option<Bytes>)
    requires position <= |data| && WalkRecords(source, data, position, name, count, previous).end.Ok?
    ensures WalkRecords(source, data + extra, position, name, count, previous)
            == WalkRecords(source, data, position, name, count, previous)
    decreases count
  {
    hide ReadSized, CheckRecord, OrderKey;
    if count > 0 {
      ReadSizedExtended(data, extra, position);
      var raw := ReadSized(data, position).value;
      var record := CheckRecord(source, name, raw.value, previous).value;
      WalkRecordsExtended(source, data, extra, raw.next, name, count - 1, Some(OrderKey(source, record.key)));
    }
  }

  lemma {:induction false} WalkNamespacesExtended(source: Source, data: Bytes, extra: Bytes, position: nat,
                                                  namespaces: seq<Namespace>)
    requires position <= |data| && WalkNamespaces(source, data, position, namespaces).end.Ok?
    ensures WalkNamespaces(source, data + extra, position, namespaces)
            == WalkNamespaces(source, data, position, namespaces)
    decreases namespaces
  {
    hide WalkRecords;
    if namespaces != [] {
      WalkRecordsExtended(source, data, extra, position, namespaces[0].name, namespaces[0].records, None);
      var head := WalkRecords(source, data, position, namespaces[0].name, namespaces[0].records, None);
      WalkNamespacesExtended(source, data, extra, head.end.value, namespaces[1..]);
    }
  }

  // The same records are yielded, and then the walk fails on the extra bytes.
  lemma TrailingBytesRejected(source: Source, metadata: Bytes, data: Bytes, extra: Bytes)
    requires WalkFile(source, metadata, data).error.None? && extra != []
    ensures WalkFile(source, metadata, data + extra)
            == Outcome(WalkFile(source, metadata, data).yielded, Some(TrailingBytes))
  {
    WalkNamespacesExtended(source, data, extra, 1, ReadNamespaces(metadata).value);
  }

  /* Round trip: what a peer exports is what the walk yields. */

  datatype LogicalRecord = LogicalRecord(key: Bytes, value: Option<Bytes>, metadata: Option<Bytes>, height: Height)
  datatype LogicalNamespace = LogicalNamespace(name: Bytes, records: seq<LogicalRecord>)

  function OptionalField(number: nat, value: Option<Bytes>): seq<Field> {
    if value.Some? then [Field(number, value.value)] else []
  }

  function RecordFields(r: LogicalRecord): seq<Field> {
    [Field(1, r.key)] + OptionalField(2, r.value) + OptionalField(3, r.metadata) + [Field(4, EncodeHeight(r.height))]
  }

  function EncodeRecord(r: LogicalRecord): Bytes
    requires forall f | f in RecordFields(r) :: ValidField(f)
  {
    EncodeFields(RecordFields(r))
  }

  // A record the format can hold and the checkpoint covers.
  predicate Exportable(source: Source, r: LogicalRecord) {
    && r.key != [] && r.height.block <= source.lastBlock
    && r.height.block < TWO_64 && r.height.transaction < TWO_64
    && (forall f | f in RecordFields(r) :: ValidField(f))
    && |EncodeRecord(r)| <= MAX_INT
    && (source.hashes ==> |r.key| == HASH_SIZE && r.value.Some? && |r.value.value| == HASH_SIZE)
  }

  predicate ExportableAfter(source: Source, records: seq<LogicalRecord>, previous: Option<Bytes>) {
    records == []
    || (&& Exportable(source, records[0])
        && (previous.Some? ==> Less(previous.value, OrderKey(source, records[0].key)))
        && ExportableAfter(source, records[1..], Some(OrderKey(source, records[0].key))))
  }

  function EncodeRecords(source: Source, records: seq<LogicalRecord>, previous: Option<Bytes>): Bytes
    requires ExportableAfter(source, records, previous)
  {
    if records == [] then []
    else EncodeSized(EncodeRecord(records[0]))
         + EncodeRecords(source, records[1..], Some(OrderKey(source, records[0].key)))
  }

  function ToRecord(name: Bytes, r: LogicalRecord): Record {
    Record(name, r.key, r.value, r.metadata)
  }

  function ToRecords(name: Bytes, records: seq<LogicalRecord>): (yielded: seq<Record>)
    ensures |yielded| == |records|
    ensures forall i :: 0 <= i < |records| ==> yielded[i] == ToRecord(name, records[i])
  {
    if records == [] then [] else [ToRecord(name, records[0])] + ToRecords(name, records[1..])
  }

  lemma RecordFieldsDistinct(r: LogicalRecord)
    ensures DistinctFields(RecordFields(r))
  {
  }

  lemma CheckEncodedRecord(source: Source, name: Bytes, r: LogicalRecord, previous: Option<Bytes>)
    requires Exportable(source, r) && (previous.Some? ==> Less(previous.value, OrderKey(source, r.key)))
    ensures CheckRecord(source, name, EncodeRecord(r), previous) == Ok(ToRecord(name, r))
  {
    hide ParseFields, EncodeFields, DecodeHeight, EncodeHeight, OrderKey;
    var fields := RecordFields(r);
    RecordFieldsDistinct(r);
    FieldsRoundTrip(fields);
    HeightRoundTrip(r.height);
    var m := ParseFields(EncodeFields(fields), 0, map[]).value;
    assert fields[0] == Field(1, r.key) && fields[|fields| - 1] == Field(4, EncodeHeight(r.height));
    assert r.value.Some? ==> fields[1] == Field(2, r.value.value);
    assert r.metadata.Some? ==> fields[|fields| - 2] == Field(3, r.metadata.value);
    assert 2 in m ==> r.value.Some?;
    assert 3 in m ==> r.metadata.Some?;
  }

  lemma ReadSizedRoundTrip(data: Bytes, position: nat, value: Bytes)
    requires |value| <= MAX_INT && At(data, position, EncodeSized(value)) && position <= |data|
    ensures ReadSized(data, position) == Ok(Parsed(value, position + |EncodeSized(value)|))
  {
    hide At, EncodeUvarint;
    AtSplit(data, position, EncodeUvarint(|value|), value);
    UvarintRoundTrip(data, position, |value|, 0, UnexpectedEof);
    AtSlice(data, position + |EncodeUvarint(|value|)|, value);
  }

  lemma {:induction false} WalkEncodedRecords(source: Source, data: Bytes, position: nat, name: Bytes,
                                              records: seq<LogicalRecord>, previous: Option<Bytes>)
    requires position <= |data| && ExportableAfter(source, records, previous)
    requires At(data, position, EncodeRecords(source, records, previous))
    ensures position + |EncodeRecords(source, records, previous)| <= |data|
    ensures WalkRecords(source, data, position, name, |records|, previous)
            == Walk(ToRecords(name, records), Ok(position + |EncodeRecords(source, records, previous)|))
    decreases records
  {
    hide At, ReadSized, CheckRecord, EncodeSized, EncodeRecord, Exportable, OrderKey;
    AtSlice(data, position, EncodeRecords(source, records, previous));
    if records != [] {
      var r := records[0];
      var next := Some(OrderKey(source, r.key));
      EncodedWithinLimit(source, r);
      var head, tail := EncodeSized(EncodeRecord(r)), EncodeRecords(source, records[1..], next);
      AtSplit(data, position, head, tail);
      ReadSizedRoundTrip(data, position, EncodeRecord(r));
      CheckEncodedRecord(source, name, r, previous);
      WalkEncodedRecords(source, data, position + |head|, name, records[1..], next);
    }
  }

  lemma EncodedWithinLimit(source: Source, r: LogicalRecord)
    requires Exportable(source, r)
    ensures (forall f | f in RecordFields(r) :: ValidField(f)) && |EncodeRecord(r)| <= MAX_INT
  {
  }

  // Names strictly ordered, every namespace encodable and its records exportable in key order.
  predicate ExportableSnapshot(source: Source, snapshot: seq<LogicalNamespace>) {
    forall i | 0 <= i < |snapshot| ::
      && ExportableAfter(source, snapshot[i].records, None)
      && Encodable(Announce(snapshot[i]))
      && (i > 0 ==> Less(snapshot[i - 1].name, snapshot[i].name))
  }

  function Announce(ns: LogicalNamespace): Namespace {
    Namespace(ns.name, |ns.records|)
  }

  function AnnounceAll(snapshot: seq<LogicalNamespace>): (namespaces: seq<Namespace>)
    ensures |namespaces| == |snapshot|
    ensures forall i :: 0 <= i < |snapshot| ==> namespaces[i] == Announce(snapshot[i])
  {
    if snapshot == [] then [] else [Announce(snapshot[0])] + AnnounceAll(snapshot[1..])
  }

  predicate AllExportable(source: Source, snapshot: seq<LogicalNamespace>) {
    snapshot == [] || (ExportableAfter(source, snapshot[0].records, None) && AllExportable(source, snapshot[1..]))
  }

  function EncodeBody(source: Source, snapshot: seq<LogicalNamespace>): Bytes
    requires AllExportable(source, snapshot)
  {
    if snapshot == [] then []
    else EncodeRecords(source, snapshot[0].records, None) + EncodeBody(source, snapshot[1..])
  }

  function AllRecords(snapshot: seq<LogicalNamespace>): seq<Record> {
    if snapshot == [] then [] else ToRecords(snapshot[0].name, snapshot[0].records) + AllRecords(snapshot[1..])
  }

  lemma {:induction false} WalkEncodedBody(source: Source, data: Bytes, position: nat, snapshot: seq<LogicalNamespace>)
    requires position <= |data| && AllExportable(source, snapshot) && At(data, position, EncodeBody(source, snapshot))
    ensures WalkNamespaces(source, data, position, AnnounceAll(snapshot))
            == Walk(AllRecords(snapshot), Ok(position + |EncodeBody(source, snapshot)|))
    decreases snapshot
  {
    hide At, EncodeRecords, WalkRecords, ExportableAfter;
    if snapshot != [] {
      var ns, rest := snapshot[0], snapshot[1..];
      var head := EncodeRecords(source, ns.records, None);
      AtSplit(data, position, head, EncodeBody(source, rest));
      WalkEncodedRecords(source, data, position, ns.name, ns.records, None);
      WalkEncodedBody(source, data, position + |head|, rest);
      assert AnnounceAll(snapshot)[1..] == AnnounceAll(rest);
    }
  }

  lemma {:induction false} AnnouncedEncodable(source: Source, snapshot: seq<LogicalNamespace>)
    requires ExportableSnapshot(source, snapshot)
    ensures AllExportable(source, snapshot) && AllEncodable(AnnounceAll(snapshot))
  {
    hide ExportableAfter;
    if snapshot != [] {
      var rest := snapshot[1..];
      assert forall i | 0 <= i < |rest| :: rest[i] == snapshot[i + 1];
      assert forall i | 1 <= i < |rest| :: rest[i - 1] == snapshot[i];
      AnnouncedEncodable(source, rest);
      assert AnnounceAll(snapshot)[1..] == AnnounceAll(rest);
    }
  }

  // The walk accepts the encoding of every logical snapshot and yields its records in order.
  lemma WalkRoundTrip(source: Source, snapshot: seq<LogicalNamespace>)
    requires ExportableSnapshot(source, snapshot) && |snapshot| < TWO_64
    ensures AllExportable(source, snapshot)
    ensures WalkFile(source, EncodeNamespaces(AnnounceAll(snapshot)), [FORMAT_VERSION] + EncodeBody(source, snapshot))
            == Outcome(AllRecords(snapshot), None)
  {
    hide ExportableAfter, EncodeNamespaces, DecodeNamespaces, WalkNamespaces, EncodeBody, At;
    var namespaces := AnnounceAll(snapshot);
    AnnouncedEncodable(source, snapshot);
    NamespacesRoundTrip(namespaces);
    assert NamesOrdered(namespaces);
    var data := [FORMAT_VERSION] + EncodeBody(source, snapshot);
    AtItself(data, 1);
    assert data[1..] == EncodeBody(source, snapshot);
    WalkEncodedBody(source, data, 1, snapshot);
  }
}
