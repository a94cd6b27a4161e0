/** snapshot.go: the length-prefixed formats of a Fabric snapshot. */
module Snapshot {
  import opened Prelude
  import opened Varint

  const FORMAT_VERSION: byte := 1

  /* Varints and sized fields. */

  function ConsumeUvarint(data: Bytes, offset: nat): (r: Result<Parsed<nat>, DecodeError>)
    ensures r.Ok? ==> r.value.value < TWO_64 && offset < r.value.next <= |data|
  {
    if offset >= |data| then Err(UnexpectedEof) else Uvarint(data, offset, 0, InvalidVarint)
  }

  function Sized(data: Bytes, offset: nat): (r: Result<Parsed<Bytes>, DecodeError>)
    ensures r.Ok? ==> offset + 1 + |r.value.value| <= r.value.next <= |data|
    ensures r.Ok? ==> data[r.value.next - |r.value.value|..r.value.next] == r.value.value
  {
    var size :- ConsumeUvarint(data, offset);
    if size.value > |data| - size.next then Err(UnexpectedEof)
    else Ok(Parsed(data[size.next..size.next + size.value], size.next + size.value))
  }

  // Accepted are exactly a varint and as many bytes as it says.
  lemma SizedExact(data: Bytes, offset: nat)
    ensures Sized(data, offset).Ok? <==>
            exists k: nat :: Ends(data, offset, 0, k)
                             && offset + k + 1 + Groups(data[offset..offset + k + 1]) <= |data|
    ensures forall k: nat | Ends(data, offset, 0, k)
                            && offset + k + 1 + Groups(data[offset..offset + k + 1]) <= |data| ::
              var start, size := offset + k + 1, Groups(data[offset..offset + k + 1]);
              Sized(data, offset) == Ok(Parsed(data[start..start + size], start + size))
  {
    hide Uvarint, Groups;
    if offset <= |data| { UvarintExact(data, offset, InvalidVarint); }
  }

  function EncodeSized(value: Bytes): Bytes {
    EncodeUvarint(|value|) + value
  }

  lemma ConsumeRoundTrip(data: Bytes, offset: nat, v: nat)
    requires v < TWO_64 && At(data, offset, EncodeUvarint(v))
    ensures ConsumeUvarint(data, offset) == Ok(Parsed(v, offset + |EncodeUvarint(v)|))
  {
    UvarintRoundTrip(data, offset, v, 0, InvalidVarint);
  }

  lemma SizedRoundTrip(data: Bytes, offset: nat, value: Bytes)
    requires |value| < TWO_64 && At(data, offset, EncodeSized(value))
    ensures Sized(data, offset) == Ok(Parsed(value, offset + |EncodeSized(value)|))
  {
    hide At, EncodeUvarint;
    AtSplit(data, offset, EncodeUvarint(|value|), value);
    ConsumeRoundTrip(data, offset, |value|);
    AtSlice(data, offset + |EncodeUvarint(|value|)|, value);
  }

  /* Namespace metadata. */

  datatype Namespace = Namespace(name: Bytes, records: nat)

  function ParseNamespace(data: Bytes, offset: nat): (r: Result<Parsed<Namespace>, DecodeError>)
    ensures r.Ok? ==> offset + 2 <= r.value.next <= |data| && r.value.value.records < TWO_64
  {
    var name :- Sized(data, offset);
    var records :- ConsumeUvarint(data, name.next);
    Ok(Parsed(Namespace(name.value, records.value), records.next))
  }

  function ParseNamespaces(data: Bytes, offset: nat, count: nat): (r: Result<Parsed<seq<Namespace>>, DecodeError>)
    requires offset <= |data|
    ensures r.Ok? ==> |r.value.value| == count && offset + 2 * count <= r.value.next <= |data|
    decreases count
  {
    if count == 0 then Ok(Parsed([], offset))
    else
      var head :- ParseNamespace(data, offset);
      var tail :- ParseNamespaces(data, head.next, count - 1);
      Ok(Parsed([head.value] + tail.value, tail.next))
  }

  function DecodeNamespaces(data: Bytes): Result<seq<Namespace>, DecodeError> {
    if data == [] || data[0] != FORMAT_VERSION then Err(UnsupportedFormat)
    else
      var count :- ConsumeUvarint(data, 1);
      if count.value > (|data| - count.next) / 2 then Err(CountExceedsSize)
      else
        var entries :- ParseNamespaces(data, count.next, count.value);
        if entries.next != |data| then Err(TrailingBytes) else Ok(entries.value)
  }

  // The same without the guard on the count.
  function DecodeUnguarded(data: Bytes): Result<seq<Namespace>, DecodeError> {
    if data == [] || data[0] != FORMAT_VERSION then Err(UnsupportedFormat)
    else
      var count :- ConsumeUvarint(data, 1);
      var entries :- ParseNamespaces(data, count.next, count.value);
      if entries.next != |data| then Err(TrailingBytes) else Ok(entries.value)
  }

  // The guard only bounds the allocation: it rejects nothing that would decode.
  lemma GuardRejectsNothing(data: Bytes)
    ensures DecodeUnguarded(data).Ok? <==> DecodeNamespaces(data).Ok?
    ensures DecodeUnguarded(data).Ok? ==> DecodeNamespaces(data) == DecodeUnguarded(data)
  {
    if data != [] && data[0] == FORMAT_VERSION && ConsumeUvarint(data, 1).Ok? {
      var count := ConsumeUvarint(data, 1).value;
      assert ParseNamespaces(data, count.next, count.value).Ok? ==> 2 * count.value <= |data| - count.next;
    }
  }

  // One more entry, parsed after those already read.
  lemma {:induction false} ParseNamespacesStep(data: Bytes, offset: nat, i: nat, count: nat)
    requires offset <= |data| && i < count && ParseNamespaces(data, offset, i).Ok?
    ensures var done := ParseNamespaces(data, offset, i).value;
            var next := ParseNamespace(data, done.next);
            if next.Ok? then
              ParseNamespaces(data, offset, i + 1) == Ok(Parsed(done.value + [next.value.value], next.value.next))
            else ParseNamespaces(data, offset, count) == Err(next.error)
    decreases i
  {
    hide ParseNamespace;
    if i == 0 {
      var next := ParseNamespace(data, offset);
      if next.Ok? {
        assert ParseNamespaces(data, next.value.next, 0) == Ok(Parsed([], next.value.next));
        assert [next.value.value] + [] == [] + [next.value.value];
      }
    } else {
      var head := ParseNamespace(data, offset).value;
      ParseNamespacesStep(data, head.next, i - 1, count - 1);
      var done := ParseNamespaces(data, head.next, i - 1).value;
      var next := ParseNamespace(data, done.next);
      if next.Ok? {
        assert [head.value] + (done.value + [next.value.value]) == ([head.value] + done.value) + [next.value.value];
      }
    }
  }

  method DecodeNamespacesLoop(data: Bytes) returns (r: Result<seq<Namespace>, DecodeError>)
    ensures r == DecodeNamespaces(data)
  {
    if data == [] || data[0] != FORMAT_VERSION { return Err(UnsupportedFormat); }
    var count := ConsumeUvarint(data, 1);
    if count.Err? { return Err(count.error); }
    if count.value.value > (|data| - count.value.next) / 2 { return Err(CountExceedsSize); }
    var offset := count.value.next;
    var result: seq<Namespace> := [];
    for i := 0 to count.value.value
      invariant ParseNamespaces(data, count.value.next, i) == Ok(Parsed(result, offset))
    {
      ParseNamespacesStep(data, count.value.next, i, count.value.value);
      var namespace := Sized(data, offset);
      if namespace.Err? { return Err(namespace.error); }
      offset := namespace.value.next;
      var records := ConsumeUvarint(data, offset);
      if records.Err? { return Err(records.error); }
      offset := records.value.next;
      result := result + [Namespace(namespace.value.value, records.value.value)];
    }
    if offset != |data| { return Err(TrailingBytes); }
    return Ok(result);
  }

  function EncodeNamespace(ns: Namespace): Bytes {
    EncodeSized(ns.name) + EncodeUvarint(ns.records)
  }

  function EncodeEntries(namespaces: seq<Namespace>): Bytes {
    if namespaces == [] then [] else EncodeNamespace(namespaces[0]) + EncodeEntries(namespaces[1..])
  }

  function EncodeNamespaces(namespaces: seq<Namespace>): Bytes {
    [FORMAT_VERSION] + EncodeUvarint(|namespaces|) + EncodeEntries(namespaces)
  }

  // What fits in the format: lengths and counts of 64 bits.
  predicate Encodable(ns: Namespace) {
    |ns.name| < TWO_64 && ns.records < TWO_64
  }

  predicate AllEncodable(namespaces: seq<Namespace>) {
    namespaces == [] || (Encodable(namespaces[0]) && AllEncodable(namespaces[1..]))
  }

  lemma NamespaceRoundTrip(data: Bytes, offset: nat, ns: Namespace)
    requires Encodable(ns) && At(data, offset, EncodeNamespace(ns))
    ensures ParseNamespace(data, offset) == Ok(Parsed(ns, offset + |EncodeNamespace(ns)|))
  {
    AtSplit(data, offset, EncodeSized(ns.name), EncodeUvarint(ns.records));
    SizedRoundTrip(data, offset, ns.name);
    ConsumeRoundTrip(data, offset + |EncodeSized(ns.name)|, ns.records);
  }

  lemma {:induction false} EntriesRoundTrip(data: Bytes, offset: nat, namespaces: seq<Namespace>)
    requires AllEncodable(namespaces)
    requires At(data, offset, EncodeEntries(namespaces))
    ensures ParseNamespaces(data, offset, |namespaces|) == Ok(Parsed(namespaces, offset + |EncodeEntries(namespaces)|))
    decreases namespaces
  {
    hide At, ParseNamespace, EncodeNamespace;
    if namespaces != [] {
      var head, rest := namespaces[0], namespaces[1..];
      var first, others := EncodeNamespace(head), EncodeEntries(rest);
      assert EncodeEntries(namespaces) == first + others;
      AtSplit(data, offset, first, others);
      NamespaceRoundTrip(data, offset, head);
      EntriesRoundTrip(data, offset + |first|, rest);
      ParseCons(data, offset, namespaces, offset + |first|, offset + |first| + |others|);
    }
  }

  lemma ParseCons(data: Bytes, offset: nat, namespaces: seq<Namespace>, next: nat, end: nat)
    requires namespaces != [] && next <= |data|
    requires ParseNamespace(data, offset) == Ok(Parsed(namespaces[0], next))
    requires ParseNamespaces(data, next, |namespaces| - 1) == Ok(Parsed(namespaces[1..], end))
    ensures ParseNamespaces(data, offset, |namespaces|) == Ok(Parsed(namespaces, end))
  {
    hide ParseNamespace;
    assert namespaces == [namespaces[0]] + namespaces[1..];
  }

  // The three parts of an encoded list, each where it is decoded.
  lemma EncodedParts(namespaces: seq<Namespace>)
    requires |namespaces| < TWO_64 && AllEncodable(namespaces)
    ensures var data, next := EncodeNamespaces(namespaces), 1 + |EncodeUvarint(|namespaces|)|;
            && data != [] && data[0] == FORMAT_VERSION && next <= |data|
            && ConsumeUvarint(data, 1) == Ok(Parsed(|namespaces|, next))
            && ParseNamespaces(data, next, |namespaces|) == Ok(Parsed(namespaces, |data|))
  {
    hide At, ParseNamespaces, EncodeEntries, ConsumeUvarint, EncodeUvarint, AllEncodable;
    var data, count := EncodeNamespaces(namespaces), EncodeUvarint(|namespaces|);
    var version, entries := [FORMAT_VERSION], EncodeEntries(namespaces);
    AtItself(data, 0);
    AtSplit(data, 0, version + count, entries);
    AtSplit(data, 0, version, count);
    ConsumeRoundTrip(data, 1, |namespaces|);
    EntriesRoundTrip(data, 1 + |count|, namespaces);
  }

  // decodeNamespaces inverts its encoding, up to the limits of 64-bit varints.
  lemma NamespacesRoundTrip(namespaces: seq<Namespace>)
    requires |namespaces| < TWO_64 && AllEncodable(namespaces)
    ensures DecodeNamespaces(EncodeNamespaces(namespaces)) == Ok(namespaces)
  {
    hide ParseNamespaces, ConsumeUvarint, EncodeNamespaces, DecodeNamespaces, AllEncodable;
    EncodedParts(namespaces);
    GuardRejectsNothing(EncodeNamespaces(namespaces));
  }

  /* The strict protobuf subset: length-delimited fields 1 to 4, each at most once. */

  datatype Field = Field(number: nat, value: Bytes)

  // One field whose number has not been seen.
  function ParseField(data: Bytes, offset: nat, seen: set<nat>): (r: Result<Parsed<Field>, DecodeError>)
    ensures r.Ok? ==> offset < r.value.next <= |data|
  {
    var tag :- ConsumeUvarint(data, offset);
    var number := tag.value / 8;
    if tag.value % 8 != 2 || number < 1 || number > 4 || number in seen then Err(UnsupportedField)
    else
      var value :- Sized(data, tag.next);
      Ok(Parsed(Field(number, value.value), value.next))
  }

  function ParseFields(data: Bytes, offset: nat, fields: map<nat, Bytes>): Result<map<nat, Bytes>, DecodeError>
    decreases |data| - offset
  {
    if offset >= |data| then Ok(fields)
    else
      var field :- ParseField(data, offset, fields.Keys);
      ParseFields(data, field.next, fields[field.value.number := field.value.value])
  }

  method ProtobufBytes(data: Bytes) returns (r: Result<map<nat, Bytes>, DecodeError>)
    ensures r == ParseFields(data, 0, map[])
  {
    var fields: map<nat, Bytes> := map[];
    var seen: set<nat> := {};
    var offset := 0;
    while offset < |data|
      invariant seen == fields.Keys
      invariant ParseFields(data, 0, map[]) == ParseFields(data, offset, fields)
      decreases |data| - offset
    {
      var tag := ConsumeUvarint(data, offset);
      if tag.Err? { return Err(tag.error); }
      offset := tag.value.next;
      var field := tag.value.value / 8;
      if tag.value.value % 8 != 2 || field < 1 || field > 4 || field in seen { return Err(UnsupportedField); }
      var value := Sized(data, offset);
      if value.Err? { return Err(value.error); }
      offset := value.value.next;
      fields := fields[field := value.value.value];
      seen := seen + {field};
    }
    return Ok(fields);
  }

  predicate ValidField(f: Field) {
    1 <= f.number <= 4 && |f.value| < TWO_64
  }

  function EncodeField(f: Field): (encoded: Bytes)
    requires ValidField(f)
    ensures |encoded| >= 2
  {
    [f.number * 8 + 2] + EncodeSized(f.value)
  }

  function EncodeFields(fields: seq<Field>): Bytes
    requires forall f | f in fields :: ValidField(f)
  {
    if fields == [] then [] else EncodeField(fields[0]) + EncodeFields(fields[1..])
  }

  predicate DistinctFields(fields: seq<Field>) {
    forall i, j | 0 <= i < j < |fields| :: fields[i].number != fields[j].number
  }

  // Adding the fields to a map one at a time, refusing a number that is there already.
  function AddFields(fields: seq<Field>, known: map<nat, Bytes>): Option<map<nat, Bytes>> {
    if fields == [] then Some(known)
    else if fields[0].number in known then None
    else AddFields(fields[1..], known[fields[0].number := fields[0].value])
  }

  lemma FieldRoundTrip(data: Bytes, offset: nat, f: Field, seen: set<nat>)
    requires ValidField(f) && At(data, offset, EncodeField(f))
    ensures ParseField(data, offset, seen)
            == if f.number in seen then Err(UnsupportedField) else Ok(Parsed(f, offset + |EncodeField(f)|))
  {
    var tag := [f.number * 8 + 2];
    assert EncodeUvarint(f.number * 8 + 2) == tag;
    AtSplit(data, offset, tag, EncodeSized(f.value));
    ConsumeRoundTrip(data, offset, f.number * 8 + 2);
    SizedRoundTrip(data, offset + 1, f.value);
  }

  lemma {:induction false} ParseEncodedFields(data: Bytes, offset: nat, fields: seq<Field>, known: map<nat, Bytes>)
    requires forall f | f in fields :: ValidField(f)
    requires At(data, offset, EncodeFields(fields)) && |data| == offset + |EncodeFields(fields)|
    ensures ParseFields(data, offset, known)
            == match AddFields(fields, known) case Some(m) => Ok(m) case None => Err(UnsupportedField)
    decreases fields
  {
    hide At, ParseField, EncodeField;
    if fields != [] {
      var f, rest := fields[0], fields[1..];
      AtSplit(data, offset, EncodeField(f), EncodeFields(rest));
      FieldRoundTrip(data, offset, f, known.Keys);
      if f.number !in known {
        ParseEncodedFields(data, offset + |EncodeField(f)|, rest, known[f.number := f.value]);
      }
    }
  }

  // Adding succeeds exactly when the numbers are new and distinct, and adds exactly the fields.
  lemma {:induction false} AddFieldsMeaning(fields: seq<Field>, known: map<nat, Bytes>)
    ensures AddFields(fields, known).Some? <==>
            DistinctFields(fields) && forall i | 0 <= i < |fields| :: fields[i].number !in known
    ensures AddFields(fields, known).Some? ==>
            var m := AddFields(fields, known).value;
            && (forall i | 0 <= i < |fields| :: fields[i].number in m && m[fields[i].number] == fields[i].value)
            && (forall n | n in known :: n in m && m[n] == known[n])
            && (forall n | n in m :: n in known || exists i :: 0 <= i < |fields| && fields[i].number == n)
    decreases fields
  {
    if fields != [] {
      var f, rest := fields[0], fields[1..];
      assert forall i | 0 <= i < |rest| :: rest[i] == fields[i + 1];
      assert forall i | 1 <= i < |fields| :: fields[i] == rest[i - 1];
      if f.number !in known {
        var more := known[f.number := f.value];
        AddFieldsMeaning(rest, more);
        if AddFields(rest, more).Some? {
          var m := AddFields(rest, more).value;
          forall n | n in m ensures n in known || exists i :: 0 <= i < |fields| && fields[i].number == n {
            if n !in more {
              var i :| 0 <= i < |rest| && rest[i].number == n;
              assert fields[i + 1].number == n;
            } else if n !in known {
              assert fields[0].number == n;
            }
          }
        }
      }
    }
  }

  // Encoded fields decode exactly when no number is repeated, whatever their order, and the
  // result maps each number to its value and nothing else.
  lemma FieldsRoundTrip(fields: seq<Field>)
    requires forall f | f in fields :: ValidField(f)
    ensures ParseFields(EncodeFields(fields), 0, map[]).Ok? <==> DistinctFields(fields)
    ensures DistinctFields(fields) ==>
            var m := ParseFields(EncodeFields(fields), 0, map[]).value;
            && (forall i | 0 <= i < |fields| :: fields[i].number in m && m[fields[i].number] == fields[i].value)
            && (forall n | n in m :: exists i :: 0 <= i < |fields| && fields[i].number == n)
  {
    var data := EncodeFields(fields);
    AtItself(data, 0);
    ParseEncodedFields(data, 0, fields, map[]);
    AddFieldsMeaning(fields, map[]);
  }

  lemma FieldOrderIrrelevant(a: seq<Field>, b: seq<Field>)
    requires (forall f | f in a :: ValidField(f)) && (forall f | f in b :: ValidField(f))
    requires DistinctFields(a) && DistinctFields(b) && forall f :: f in a <==> f in b
    ensures ParseFields(EncodeFields(a), 0, map[]) == ParseFields(EncodeFields(b), 0, map[])
  {
    hide ParseFields, EncodeFields;
    FieldsRoundTrip(a);
    FieldsRoundTrip(b);
    var x, y := ParseFields(EncodeFields(a), 0, map[]).value, ParseFields(EncodeFields(b), 0, map[]).value;
    forall n | n in x ensures n in y && x[n] == y[n] {
      var i :| 0 <= i < |a| && a[i].number == n;
      assert a[i] in a;
      var j :| 0 <= j < |b| && b[j] == a[i];
    }
    forall n | n in y ensures n in x {
      var i :| 0 <= i < |b| && b[i].number == n;
      assert b[i] in b;
      var j :| 0 <= j < |a| && a[j] == b[i];
    }
    assert x == y;
  }

  /* Heights. */

  function BigEndian(bytes: Bytes): nat {
    if bytes == [] then 0 else BigEndian(bytes[..|bytes| - 1]) * 256 + bytes[|bytes| - 1]
  }

  function OrderPreservingUint(data: Bytes, offset: nat): (r: Result<Parsed<nat>, DecodeError>)
    ensures r.Ok? ==> r.value.value < TWO_64 && offset < r.value.next <= |data|
  {
    var size :- ConsumeUvarint(data, offset);
    if size.value > 8 || size.value > |data| - size.next then Err(InvalidUint)
    else
      var bytes := data[size.next..size.next + size.value];
      BigEndianBound(bytes);
      Ok(Parsed(BigEndian(bytes), size.next + size.value))
  }

  // Accepted are exactly a varint of at most 8 and that many bytes, as a big-endian number.
  lemma UintExact(data: Bytes, offset: nat)
    ensures OrderPreservingUint(data, offset).Ok? <==>
            exists k: nat :: Ends(data, offset, 0, k) && Groups(data[offset..offset + k + 1]) <= 8
                             && offset + k + 1 + Groups(data[offset..offset + k + 1]) <= |data|
    ensures forall k: nat | Ends(data, offset, 0, k) && Groups(data[offset..offset + k + 1]) <= 8
                            && offset + k + 1 + Groups(data[offset..offset + k + 1]) <= |data| ::
              var start, size := offset + k + 1, Groups(data[offset..offset + k + 1]);
              OrderPreservingUint(data, offset) == Ok(Parsed(BigEndian(data[start..start + size]), start + size))
  {
    hide Uvarint, Groups, BigEndian;
    if offset <= |data| { UvarintExact(data, offset, InvalidVarint); }
  }

  function Pow256(n: nat): nat
    requires n <= 8
  {
    [1, 0x100, 0x1_0000, 0x100_0000, 0x1_0000_0000, 0x100_0000_0000, 0x1_0000_0000_0000, 0x100_0000_0000_0000,
     0x1_0000_0000_0000_0000][n]
  }

  lemma {:induction false} BigEndianBound(bytes: Bytes)
    requires |bytes| <= 8
    ensures BigEndian(bytes) < Pow256(|bytes|) <= TWO_64
  {
    if bytes != [] { BigEndianBound(bytes[..|bytes| - 1]); }
  }

  lemma {:induction false} LeadingZeros(padded: Bytes, bytes: Bytes)
    requires |padded| >= |bytes| && padded[|padded| - |bytes|..] == bytes
    requires forall i :: 0 <= i < |padded| - |bytes| ==> padded[i] == 0
    ensures BigEndian(padded) == BigEndian(bytes)
    decreases |padded|
  {
    if padded != [] {
      var shorter := padded[..|padded| - 1];
      if bytes == [] {
        LeadingZeros(shorter, []);
      } else {
        assert padded[|padded| - 1] == padded[|padded| - |bytes|..][|bytes| - 1];
        assert shorter[|shorter| - (|bytes| - 1)..] == padded[|padded| - |bytes|..][..|bytes| - 1];
        LeadingZeros(shorter, bytes[..|bytes| - 1]);
      }
    }
  }

  // orderPreservingUint with its eight-byte buffer.
  method ReadOrderPreservingUint(data: Bytes, offset: nat) returns (r: Result<Parsed<nat>, DecodeError>)
    ensures r == OrderPreservingUint(data, offset)
  {
    hide Uvarint, BigEndian;
    var size := ConsumeUvarint(data, offset);
    if size.Err? { return Err(size.error); }
    if size.value.value > 8 || size.value.value > |data| - size.value.next { return Err(InvalidUint); }
    var next, count := size.value.next, size.value.value;
    var padded := new byte[8](_ => 0);
    for i := 0 to count
      invariant forall k :: 0 <= k < 8 - count ==> padded[k] == 0
      invariant forall k :: 8 - count <= k < 8 - count + i ==> padded[k] == data[next + k - (8 - count)]
    {
      padded[8 - count + i] := data[next + i];
    }
    var buffer, bytes := padded[..], data[next..next + count];
    assert buffer[8 - count..] == bytes;
    LeadingZeros(buffer, bytes);
    return Ok(Parsed(BigEndian(padded[..]), next + count));
  }

  datatype Height = Height(block: nat, transaction: nat)

  function DecodeHeight(data: Bytes): Result<Height, DecodeError> {
    var block :- OrderPreservingUint(data, 0);
    var transaction :- OrderPreservingUint(data, block.next);
    if transaction.next != |data| then Err(TrailingBytes) else Ok(Height(block.value, transaction.value))
  }

  function MinimalBytes(v: nat): Bytes {
    if v == 0 then [] else MinimalBytes(v / 256) + [v % 256]
  }

  // Fabric's order-preserving encoding: the length of the minimal big-endian form, then the form.
  function EncodeUint(v: nat): Bytes {
    EncodeSized(MinimalBytes(v))
  }

  function EncodeHeight(h: Height): Bytes {
    EncodeUint(h.block) + EncodeUint(h.transaction)
  }

  lemma {:induction false} MinimalBytesRoundTrip(v: nat, n: nat)
    requires n <= 8 && v < Pow256(n)
    ensures |MinimalBytes(v)| <= n && BigEndian(MinimalBytes(v)) == v
    decreases n
  {
    if v > 0 {
      assert v / 256 < Pow256(n - 1);
      MinimalBytesRoundTrip(v / 256, n - 1);
      assert MinimalBytes(v)[..|MinimalBytes(v)| - 1] == MinimalBytes(v / 256);
    }
  }

  lemma UintRoundTrip(data: Bytes, offset: nat, v: nat)
    requires v < TWO_64 && At(data, offset, EncodeUint(v))
    ensures OrderPreservingUint(data, offset) == Ok(Parsed(v, offset + |EncodeUint(v)|))
  {
    MinimalBytesRoundTrip(v, 8);
    AtSplit(data, offset, EncodeUvarint(|MinimalBytes(v)|), MinimalBytes(v));
    ConsumeRoundTrip(data, offset, |MinimalBytes(v)|);
    AtSlice(data, offset + |EncodeUvarint(|MinimalBytes(v)|)|, MinimalBytes(v));
  }

  // decodeHeight inverts the encoding of every pair of 64-bit numbers.
  lemma HeightRoundTrip(h: Height)
    requires h.block < TWO_64 && h.transaction < TWO_64
    ensures DecodeHeight(EncodeHeight(h)) == Ok(h)
  {
    hide At, OrderPreservingUint, EncodeUint;
    var data := EncodeHeight(h);
    AtItself(data, 0);
    AtSplit(data, 0, EncodeUint(h.block), EncodeUint(h.transaction));
    UintRoundTrip(data, 0, h.block);
    UintRoundTrip(data, |EncodeUint(h.block)|, h.transaction);
  }

  /* The encoding preserves order, as its name says. */

  lemma {:induction false} LessAppend(x: Bytes, y: Bytes, a: byte, b: byte)
    requires |x| == |y|
    ensures Less(x + [a], y + [b]) <==> Less(x, y) || (x == y && a < b)
  {
    if x != [] {
      assert (x + [a])[1..] == x[1..] + [a] && (y + [b])[1..] == y[1..] + [b];
      LessAppend(x[1..], y[1..], a, b);
      assert x == [x[0]] + x[1..] && y == [y[0]] + y[1..];
    }
  }

  lemma {:induction false} BigEndianOrder(x: Bytes, y: Bytes)
    requires |x| == |y|
    ensures BigEndian(x) < BigEndian(y) <==> Less(x, y)
    ensures BigEndian(x) == BigEndian(y) <==> x == y
  {
    if x != [] {
      var n := |x| - 1;
      assert x == x[..n] + [x[n]] && y == y[..n] + [y[n]];
      BigEndianOrder(x[..n], y[..n]);
      LessAppend(x[..n], y[..n], x[n], y[n]);
      LessIrreflexive(x[..n]);
    }
  }

  lemma {:induction false} MinimalBytesMonotone(a: nat, b: nat)
    requires a <= b
    ensures |MinimalBytes(a)| <= |MinimalBytes(b)|
  {
    if a > 0 { MinimalBytesMonotone(a / 256, b / 256); }
  }

  lemma UintOrder(a: nat, b: nat)
    requires a < TWO_64 && b < TWO_64
    ensures Less(EncodeUint(a), EncodeUint(b)) <==> a < b
  {
    var x, y := MinimalBytes(a), MinimalBytes(b);
    MinimalBytesRoundTrip(a, 8);
    MinimalBytesRoundTrip(b, 8);
    assert EncodeUint(a) == [|x|] + x && EncodeUint(b) == [|y|] + y;
    assert EncodeUint(a)[1..] == x && EncodeUint(b)[1..] == y;
    if a <= b { MinimalBytesMonotone(a, b); }
    if b <= a { MinimalBytesMonotone(b, a); }
    if |x| == |y| { BigEndianOrder(x, y); }
  }
}
