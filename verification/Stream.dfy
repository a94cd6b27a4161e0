/** stream.go: walking the records of a snapshot file, one namespace after another. */
module Stream {
  import opened Prelude
  import opened Varint
  import opened Snapshot
  import Base64

  datatype Record = Record(namespace: Bytes, key: Bytes, value: Option<Bytes>, metadata: Option<Bytes>)

  // What the checks depend on: private hashes or public state, the state database, the checkpoint.
  datatype Source = Source(hashes: bool, couchDB: bool, lastBlock: nat)

  const HASH_SIZE: nat := 32
  const MAX_INT: nat := 0x7fff_ffff_ffff_ffff

  /* Namespaces. */

  predicate NamesOrdered(namespaces: seq<Namespace>) {
    forall i | 1 <= i < |namespaces| :: Less(namespaces[i - 1].name, namespaces[i].name)
  }

  function ReadNamespaces(metadata: Bytes): Result<seq<Namespace>, DecodeError> {
    var namespaces :- DecodeNamespaces(metadata);
    if NamesOrdered(namespaces) then Ok(namespaces) else Err(NamespacesNotOrdered)
  }

  method ReadNamespacesLoop(metadata: Bytes) returns (r: Result<seq<Namespace>, DecodeError>)
    ensures r == ReadNamespaces(metadata)
  {
    r := DecodeNamespacesLoop(metadata);
    if r.Err? { return; }
    for i := 0 to |r.value|
      invariant forall k | 1 <= k < i :: Less(r.value[k - 1].name, r.value[k].name)
    {
      if i > 0 && !Less(r.value[i - 1].name, r.value[i].name) { return Err(NamespacesNotOrdered); }
    }
  }

  lemma {:induction false} NamesDistinct(namespaces: seq<Namespace>, i: nat, j: nat)
    requires NamesOrdered(namespaces) && i < j < |namespaces|
    ensures Less(namespaces[i].name, namespaces[j].name) && namespaces[i].name != namespaces[j].name
    decreases j
  {
    if i < j - 1 {
      NamesDistinct(namespaces, i, j - 1);
      LessTransitive(namespaces[i].name, namespaces[j - 1].name, namespaces[j].name);
    }
    LessIrreflexive(namespaces[i].name);
  }

  /* One record. */

  function Lookup(fields: map<nat, Bytes>, n: nat): Option<Bytes> {
    if n in fields then Some(fields[n]) else None
  }

  // CouchDB sorts private hash keys by their Base64 text.
  function OrderKey(source: Source, key: Bytes): Bytes {
    if source.hashes && source.couchDB then Base64.Encode(key) else key
  }

  function CheckRecord(source: Source, name: Bytes, raw: Bytes, previous: Option<Bytes>): Result<Record, DecodeError> {
    var fields :- ParseFields(raw, 0, map[]);
    if 1 !in fields || 4 !in fields || fields[1] == [] then Err(IncompleteRecord)
    else if source.hashes && (|fields[1]| != HASH_SIZE || 2 !in fields || |fields[2]| != HASH_SIZE) then Err(NotHashes)
    else if previous.Some? && !Less(previous.value, OrderKey(source, fields[1])) then Err(KeysNotOrdered)
    else
      var height :- DecodeHeight(fields[4]);
      if height.block > source.lastBlock then Err(VersionAfterCheckpoint)
      else Ok(Record(name, fields[1], Lookup(fields, 2), Lookup(fields, 3)))
  }

  function ReadSized(data: Bytes, position: nat): (r: Result<Parsed<Bytes>, DecodeError>)
    requires position <= |data|
    ensures r.Ok? ==> position < r.value.next <= |data|
  {
    var size :- Uvarint(data, position, 0, UnexpectedEof);
    if size.value > MAX_INT then Err(RecordTooLarge)
    else if size.value > |data| - size.next then Err(UnexpectedEof)
    else Ok(Parsed(data[size.next..size.next + size.value], size.next + size.value))
  }

  // Accepted are exactly a varint within the range of int and as many bytes as it says.
  lemma ReadSizedExact(data: Bytes, position: nat)
    requires position <= |data|
    ensures ReadSized(data, position).Ok? <==>
            exists k: nat :: Ends(data, position, 0, k)
                             && Groups(data[position..position + k + 1]) < 0x8000_0000_0000_0000
                             && position + k + 1 + Groups(data[position..position + k + 1]) <= |data|
    ensures forall k: nat | Ends(data, position, 0, k)
                            && Groups(data[position..position + k + 1]) < 0x8000_0000_0000_0000
                            && position + k + 1 + Groups(data[position..position + k + 1]) <= |data| ::
              var start, size := position + k + 1, Groups(data[position..position + k + 1]);
              ReadSized(data, position) == Ok(Parsed(data[start..start + size], start + size))
  {
    hide Uvarint, Groups;
    UvarintExact(data, position, UnexpectedEof);
  }

  /* The walk. */

  // The records yielded so far, and the position reached or the error that stopped the walk.
  datatype Walk = Walk(yielded: seq<Record>, end: Result<nat, DecodeError>)

  function Prepend(records: seq<Record>, walk: Walk): Walk {
    Walk(records + walk.yielded, walk.end)
  }

  function WalkRecords(source: Source, data: Bytes, position: nat, name: Bytes, count: nat, previous: Option<Bytes>)
    : (w: Walk)
    requires position <= |data|
    ensures w.end.Ok? ==> position <= w.end.value <= |data|
    decreases count
  {
    if count == 0 then Walk([], Ok(position))
    else
      var raw := ReadSized(data, position);
      if raw.Err? then Walk([], Err(raw.error))
      else
        var record := CheckRecord(source, name, raw.value.value, previous);
        if record.Err? then Walk([], Err(record.error))
        else
          Prepend([record.value],
                  WalkRecords(source, data, raw.value.next, name, count - 1, Some(OrderKey(source, record.value.key))))
  }

  function WalkNamespaces(source: Source, data: Bytes, position: nat, namespaces: seq<Namespace>): (w: Walk)
    requires position <= |data|
    ensures w.end.Ok? ==> position <= w.end.value <= |data|
    decreases namespaces, 0
  {
    if namespaces == [] then Walk([], Ok(position))
    else Continue(source, data, WalkRecords(source, data, position, namespaces[0].name, namespaces[0].records, None),
                  position, namespaces[1..])
  }

  // Go on with the next namespaces where a walk ended.
  function Continue(source: Source, data: Bytes, walk: Walk, start: nat, namespaces: seq<Namespace>): (w: Walk)
    requires walk.end.Ok? ==> start <= walk.end.value <= |data|
    ensures w.end.Ok? ==> start <= w.end.value <= |data|
    decreases namespaces, 1
  {
    if walk.end.Err? then walk else Prepend(walk.yielded, WalkNamespaces(source, data, walk.end.value, namespaces))
  }

  datatype Outcome = Outcome(yielded: seq<Record>, error: Option<DecodeError>)

  function WalkFile(source: Source, metadata: Bytes, data: Bytes): Outcome {
    var namespaces := ReadNamespaces(metadata);
    if namespaces.Err? then Outcome([], Some(namespaces.error))
    else if data == [] then Outcome([], Some(UnexpectedEof))
    else if data[0] != FORMAT_VERSION then Outcome([], Some(UnsupportedFormat))
    else
      var walk := WalkNamespaces(source, data, 1, namespaces.value);
      if walk.end.Err? then Outcome(walk.yielded, Some(walk.end.error))
      else if walk.end.value != |data| then Outcome(walk.yielded, Some(TrailingBytes))
      else Outcome(walk.yielded, None)
  }

  /* The stateful reader. */

  class Reader {
    const data: Bytes
    var position: nat

    constructor (data: Bytes)
      ensures this.data == data && position == 0
    {
      this.data, position := data, 0;
    }

    method ReadByte() returns (b: Option<byte>)
      requires position <= |data|
      modifies this
      ensures if old(position) == |data| then b == None && position == old(position)
              else b == Some(data[old(position)]) && position == old(position) + 1
    {
      if position == |data| { return None; }
      b := Some(data[position]);
      position := position + 1;
    }

    // binary.ReadUvarint
    method ReadUvarint() returns (r: Result<nat, DecodeError>)
      requires position <= |data|
      modifies this
      ensures position <= |data|
      ensures match Uvarint(data, old(position), 0, UnexpectedEof)
              case Ok(parsed) => r == Ok(parsed.value) && position == parsed.next
              case Err(e) => r == Err(e)
    {
      r := ReadGroups(0);
    }

    method ReadGroups(i: nat) returns (r: Result<nat, DecodeError>)
      requires position <= |data| && i <= 10
      modifies this
      ensures position <= |data|
      ensures match Uvarint(data, old(position), i, UnexpectedEof)
              case Ok(parsed) => r == Ok(parsed.value) && position == parsed.next
              case Err(e) => r == Err(e)
      decreases 10 - i
    {
      if i == 10 { return Err(InvalidVarint); }
      var b := ReadByte();
      if b.None? { return Err(UnexpectedEof); }
      if b.value < 128 {
        return if i == 9 && b.value > 1 then Err(InvalidVarint) else Ok(b.value);
      }
      r := ReadGroups(i + 1);
      if r.Ok? { r := Ok(b.value - 128 + 128 * r.value); }
    }

    method ReadSizedBytes() returns (r: Result<Bytes, DecodeError>)
      requires position <= |data|
      modifies this
      ensures position <= |data|
      ensures match ReadSized(data, old(position))
              case Ok(parsed) => r == Ok(parsed.value) && position == parsed.next
              case Err(e) => r == Err(e)
    {
      var size := ReadUvarint();
      if size.Err? { return Err(size.error); }
      if size.value > MAX_INT { return Err(RecordTooLarge); }
      if size.value > |data| - position { return Err(UnexpectedEof); }
      r := Ok(data[position..position + size.value]);
      position := position + size.value;
    }
  }

  // The checks of the loop body, on the raw bytes of one record.
  method CheckRawRecord(source: Source, name: Bytes, raw: Bytes, previous: Option<Bytes>)
    returns (r: Result<Record, DecodeError>)
    ensures r == CheckRecord(source, name, raw, previous)
  {
    var fields := ProtobufBytes(raw);
    if fields.Err? { return Err(fields.error); }
    var f := fields.value;
    if 1 !in f || 4 !in f || |f[1]| == 0 { return Err(IncompleteRecord); }
    var key, orderKey := f[1], f[1];
    if source.hashes {
      if |key| != HASH_SIZE || 2 !in f || |f[2]| != HASH_SIZE { return Err(NotHashes); }
      if source.couchDB { orderKey := Base64.Encode(key); }
    }
    if previous.Some? && !Less(previous.value, orderKey) { return Err(KeysNotOrdered); }
    var height := DecodeHeight(f[4]);
    if height.Err? { return Err(height.error); }
    if height.value.block > source.lastBlock { return Err(VersionAfterCheckpoint); }
    return Ok(Record(name, key, Lookup(f, 2), Lookup(f, 3)));
  }

  lemma PrependTwice(a: seq<Record>, b: seq<Record>, walk: Walk)
    ensures Prepend(a, Prepend(b, walk)) == Prepend(a + b, walk)
    ensures Prepend([], walk) == walk
  {
    assert a + (b + walk.yielded) == (a + b) + walk.yielded;
    assert [] + walk.yielded == walk.yielded;
  }

  // One round of the walk over a namespace, after the records already yielded.
  lemma WalkStep(source: Source, data: Bytes, position: nat, name: Bytes, count: nat, previous: Option<Bytes>,
                 records: seq<Record>)
    requires position <= |data| && count > 0
    ensures var walk := Prepend(records, WalkRecords(source, data, position, name, count, previous));
            match ReadSized(data, position)
            case Err(e) => walk == Walk(records, Err(e))
            case Ok(raw) => walk == AfterCheck(source, data, raw.next, name, count - 1, records,
                                               CheckRecord(source, name, raw.value, previous))
  {
    hide ReadSized, CheckRecord, OrderKey;
    assert records + [] == records;
    var raw := ReadSized(data, position);
    if raw.Ok? && CheckRecord(source, name, raw.value.value, previous).Ok? {
      var record := CheckRecord(source, name, raw.value.value, previous).value;
      var key := Some(OrderKey(source, record.key));
      PrependTwice(records, [record], WalkRecords(source, data, raw.value.next, name, count - 1, key));
    }
  }

  // How the walk goes on once a record has been checked.
  function AfterCheck(source: Source, data: Bytes, position: nat, name: Bytes, count: nat, records: seq<Record>,
                      checked: Result<Record, DecodeError>): Walk
    requires position <= |data|
  {
    if checked.Err? then Walk(records, Err(checked.error))
    else
      var key := Some(OrderKey(source, checked.value.key));
      Prepend(records + [checked.value], WalkRecords(source, data, position, name, count, key))
  }

  // The inner loop of walkRecords: the records of one namespace.
  method WalkNamespaceLoop(source: Source, reader: Reader, namespace: Namespace)
    returns (records: seq<Record>, error: Option<DecodeError>)
    requires reader.position <= |reader.data|
    modifies reader
    ensures reader.position <= |reader.data|
    ensures WalkRecords(source, reader.data, old(reader.position), namespace.name, namespace.records, None)
            == Walk(records, if error.Some? then Err(error.value) else Ok(reader.position))
  {
    hide ReadSized, CheckRecord, OrderKey, WalkRecords, Prepend;
    records := [];
    var previous: Option<Bytes> := None;
    ghost var all := WalkRecords(source, reader.data, reader.position, namespace.name, namespace.records, None);
    PrependTwice([], [], all);
    for j := 0 to namespace.records
      invariant reader.position <= |reader.data|
      invariant all == Prepend(records, WalkRecords(source, reader.data, reader.position, namespace.name,
                                                    namespace.records - j, previous))
    {
      WalkStep(source, reader.data, reader.position, namespace.name, namespace.records - j, previous, records);
      var raw := reader.ReadSizedBytes();
      if raw.Err? { return records, Some(raw.error); }
      var record := CheckRawRecord(source, namespace.name, raw.value, previous);
      if record.Err? { return records, Some(record.error); }
      previous := Some(OrderKey(source, record.value.key));
      records := records + [record.value];
    }
    WalkEnds(source, reader.data, reader.position, namespace.name, previous, records);
    error := None;
  }

  lemma WalkEnds(source: Source, data: Bytes, position: nat, name: Bytes, previous: Option<Bytes>, records: seq<Record>)
    requires position <= |data|
    ensures Prepend(records, WalkRecords(source, data, position, name, 0, previous)) == Walk(records, Ok(position))
  {
    assert records + [] == records;
  }

  // walkRecords: `yielded` is what the callback was given, in order.
  method WalkFileLoop(source: Source, metadata: Bytes, data: Bytes)
    returns (yielded: seq<Record>, error: Option<DecodeError>)
    ensures Outcome(yielded, error) == WalkFile(source, metadata, data)
  {
    hide WalkRecords, ReadNamespaces;
    yielded := [];
    var read := ReadNamespacesLoop(metadata);
    if read.Err? { return [], Some(read.error); }
    var namespaces := read.value;
    var reader := new Reader(data);
    var version := reader.ReadByte();
    if version.None? { return [], Some(UnexpectedEof); }
    if version.value != FORMAT_VERSION { return [], Some(UnsupportedFormat); }
    ghost var all := WalkNamespaces(source, data, 1, namespaces);
    PrependTwice([], [], all);
    assert namespaces[0..] == namespaces;
    for i := 0 to |namespaces|
      invariant reader.position <= |data|
      invariant all == Prepend(yielded, WalkNamespaces(source, data, reader.position, namespaces[i..]))
    {
      ghost var walk := WalkNamespaces(source, data, reader.position, namespaces[i..]);
      assert namespaces[i..][0] == namespaces[i] && namespaces[i..][1..] == namespaces[i + 1..];
      var records;
      records, error := WalkNamespaceLoop(source, reader, namespaces[i]);
      if error.Some? {
        yielded := yielded + records;
        return;
      }
      ghost var tail := WalkNamespaces(source, data, reader.position, namespaces[i + 1..]);
      assert walk == Prepend(records, tail);
      PrependTwice(yielded, records, tail);
      yielded := yielded + records;
    }
    assert yielded + [] == yielded;
    var extra := reader.ReadByte();
    if extra.Some? { return yielded, Some(TrailingBytes); }
    return yielded, None;
  }
}
