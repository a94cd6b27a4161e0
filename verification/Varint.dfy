/** Go's encoding/binary varints: at most ten bytes, least significant group first, 64 bits. */
module Varint {
  import opened Prelude

  datatype DecodeError =
    | UnexpectedEof | InvalidVarint | UnsupportedFormat | CountExceedsSize | TrailingBytes
    | UnsupportedField | InvalidUint | RecordTooLarge | NamespacesNotOrdered | IncompleteRecord
    | NotHashes | KeysNotOrdered | VersionAfterCheckpoint | InvalidHashNamespace

  // A decoded value and the position after it.
  datatype Parsed<+T> = Parsed(value: T, next: nat)

  // How large the rest of a varint may be once `i` bytes are read: 64 bits less 7 for each byte.
  function Room(i: nat): nat
    requires i <= 9
  {
    [0x1_0000_0000_0000_0000, 0x200_0000_0000_0000, 0x4_0000_0000_0000, 0x800_0000_0000, 0x10_0000_0000,
     0x2000_0000, 0x40_0000, 0x8000, 0x100, 2][i]
  }

  // binary.Uvarint from its `i`-th byte on; `truncated` is the error for missing bytes.
  function Uvarint(data: Bytes, offset: nat, i: nat, truncated: DecodeError): (r: Result<Parsed<nat>, DecodeError>)
    requires offset <= |data| && i <= 10
    ensures r.Ok? ==> i <= 9 && r.value.value < Room(i)
    ensures r.Ok? ==> offset < r.value.next <= |data| && r.value.next <= offset + 10 - i
    decreases 10 - i
  {
    if i == 10 then Err(InvalidVarint)
    else if offset == |data| then Err(truncated)
    else if data[offset] < 128 then
      if i == 9 && data[offset] > 1 then Err(InvalidVarint) else Ok(Parsed(data[offset], offset + 1))
    else
      var rest :- Uvarint(data, offset + 1, i + 1, truncated);
      Ok(Parsed(data[offset] - 128 + 128 * rest.value, rest.next))
  }

  // binary.AppendUvarint
  function EncodeUvarint(v: nat): (encoded: Bytes)
    ensures |encoded| >= 1
  {
    if v < 128 then [v] else [v % 128 + 128] + EncodeUvarint(v / 128)
  }

  // `part` stands in `data` at `offset`.
  predicate At(data: Bytes, offset: nat, part: Bytes)
    decreases part
  {
    offset <= |data|
    && (part == [] || (offset < |data| && data[offset] == part[0] && At(data, offset + 1, part[1..])))
  }

  lemma {:induction false} AtSplit(data: Bytes, offset: nat, a: Bytes, b: Bytes)
    ensures At(data, offset, a + b) <==> At(data, offset, a) && At(data, offset + |a|, b)
    decreases a
  {
    if a == [] {
      assert a + b == b;
    } else {
      assert (a + b)[1..] == a[1..] + b;
      AtSplit(data, offset + 1, a[1..], b);
    }
  }

  lemma {:induction false} AtSlice(data: Bytes, offset: nat, part: Bytes)
    requires At(data, offset, part)
    ensures offset + |part| <= |data| && data[offset..offset + |part|] == part
    decreases part
  {
    if part != [] { AtSlice(data, offset + 1, part[1..]); }
  }

  lemma {:induction false} AtItself(data: Bytes, offset: nat)
    requires offset <= |data|
    ensures At(data, offset, data[offset..])
    decreases |data| - offset
  {
    if offset < |data| {
      assert data[offset..][1..] == data[offset + 1..];
      AtItself(data, offset + 1);
    }
  }

  lemma SmallRoom(v: nat, i: nat)
    requires i <= 9 && v < Room(i)
    ensures i == 9 ==> v <= 1
  {
  }

  lemma RoomStep(v: nat, i: nat)
    requires i <= 9 && 128 <= v < Room(i)
    ensures i < 9 && v / 128 < Room(i + 1)
  {
  }

  // Every 64-bit value survives encoding and decoding, wherever it stands in the input.
  lemma {:induction false} UvarintRoundTrip(data: Bytes, offset: nat, v: nat, i: nat, truncated: DecodeError)
    requires i <= 9 && v < Room(i) && At(data, offset, EncodeUvarint(v))
    ensures Uvarint(data, offset, i, truncated) == Ok(Parsed(v, offset + |EncodeUvarint(v)|))
    decreases 10 - i
  {
    hide Room;
    if v < 128 {
      SmallRoom(v, i);
    } else {
      RoomStep(v, i);
      AtSplit(data, offset, [v % 128 + 128], EncodeUvarint(v / 128));
      UvarintRoundTrip(data, offset + 1, v / 128, i + 1, truncated);
    }
  }

  /* Which byte strings are varints. */

  // From the `i`-th byte on: `k` bytes with the high bit, then one without; within 64 bits.
  predicate Ends(data: Bytes, offset: nat, i: nat, k: nat) {
    && offset + k < |data| && i + k <= 9
    && (forall j | offset <= j < offset + k :: data[j] >= 128) && data[offset + k] < 128
    && (i + k == 9 ==> data[offset + k] <= 1)
  }

  // The seven-bit groups as a number, the least significant first.
  function Groups(bytes: Bytes): nat {
    if bytes == [] then 0 else bytes[0] % 128 + 128 * Groups(bytes[1..])
  }

  lemma GroupsStep(data: Bytes, offset: nat, end: nat)
    requires offset < end <= |data|
    ensures Groups(data[offset..end]) == data[offset] % 128 + 128 * Groups(data[offset + 1..end])
    ensures data[offset] < 128 ==> data[offset] % 128 == data[offset]
    ensures data[offset] >= 128 ==> data[offset] % 128 == data[offset] - 128
  {
    assert data[offset..end][1..] == data[offset + 1..end];
  }

  lemma EndsStep(data: Bytes, offset: nat, i: nat, k: nat)
    requires Ends(data, offset, i, k)
    ensures offset + k < |data| && i + k <= 9
    ensures k == 0 ==> data[offset] < 128 && (i == 9 ==> data[offset] <= 1)
    ensures k > 0 ==> data[offset] >= 128 && Ends(data, offset + 1, i + 1, k - 1)
  {
  }

  lemma UvarintStep(data: Bytes, offset: nat, i: nat, truncated: DecodeError)
    requires offset < |data| && i <= 9
    ensures data[offset] < 128 && (i == 9 ==> data[offset] <= 1) ==>
              Uvarint(data, offset, i, truncated) == Ok(Parsed(data[offset], offset + 1))
    ensures data[offset] >= 128 && Uvarint(data, offset + 1, i + 1, truncated).Ok? ==>
              var rest := Uvarint(data, offset + 1, i + 1, truncated).value;
              Uvarint(data, offset, i, truncated) == Ok(Parsed(data[offset] - 128 + 128 * rest.value, rest.next))
  {
    hide Room;
  }

  // A varint need not be the shortest one for its value.
  lemma {:induction false} UvarintEnds(data: Bytes, offset: nat, i: nat, k: nat, truncated: DecodeError)
    requires offset + k < |data| && i <= 9 && Ends(data, offset, i, k)
    ensures Uvarint(data, offset, i, truncated) == Ok(Parsed(Groups(data[offset..offset + k + 1]), offset + k + 1))
    decreases k
  {
    hide Room, Groups, Ends, Uvarint;
    EndsStep(data, offset, i, k);
    GroupsStep(data, offset, offset + k + 1);
    UvarintStep(data, offset, i, truncated);
    if k == 0 {
      NoGroups(data[offset + 1..offset + 1]);
    } else {
      UvarintEnds(data, offset + 1, i + 1, k - 1, truncated);
    }
  }

  lemma NoGroups(bytes: Bytes)
    requires |bytes| == 0
    ensures Groups(bytes) == 0
  {
  }

  lemma {:induction false} UvarintEnded(data: Bytes, offset: nat, i: nat, truncated: DecodeError) returns (k: nat)
    requires offset <= |data| && i <= 10 && Uvarint(data, offset, i, truncated).Ok?
    ensures Ends(data, offset, i, k)
    decreases 10 - i
  {
    hide Room;
    k := 0;
    if data[offset] >= 128 {
      k := UvarintEnded(data, offset + 1, i + 1, truncated);
      k := k + 1;
    }
  }

  // Accepted are exactly the varints of at most ten bytes and 64 bits, with the value of their groups.
  lemma UvarintExact(data: Bytes, offset: nat, truncated: DecodeError)
    requires offset <= |data|
    ensures Uvarint(data, offset, 0, truncated).Ok? <==> exists k: nat :: Ends(data, offset, 0, k)
    ensures forall k: nat | Ends(data, offset, 0, k) ::
              Uvarint(data, offset, 0, truncated)
              == Ok(Parsed(Groups(data[offset..offset + k + 1]), offset + k + 1))
  {
    hide Ends, Groups, Uvarint;
    forall k: nat | Ends(data, offset, 0, k)
      ensures offset + k < |data| && Uvarint(data, offset, 0, truncated)
                                     == Ok(Parsed(Groups(data[offset..offset + k + 1]), offset + k + 1))
    {
      EndsStep(data, offset, 0, k);
      UvarintEnds(data, offset, 0, k, truncated);
    }
    if Uvarint(data, offset, 0, truncated).Ok? { var k := UvarintEnded(data, offset, 0, truncated); }
  }
}
