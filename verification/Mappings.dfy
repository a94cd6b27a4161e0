/** inputs.go: the mapping of source namespaces to target namespaces, and the record counts that
    the snapshot metadata announces for each target. */
module Mappings {
  import opened Prelude
  import opened Varint

  /* Private hash namespaces: name$$hcollection. */

  const DOLLARS: Bytes := [36, 36]
  const HASH_MARK: Bytes := [36, 36, 104]

  predicate OccursAt(s: Bytes, part: Bytes, i: nat) {
    i + |part| <= |s| && s[i..i + |part|] == part
  }

  predicate HasPart(s: Bytes, part: Bytes) {
    exists i: nat :: i <= |s| && OccursAt(s, part, i)
  }

  // The first occurrence at or after `from`; |s| + 1 when there is none.
  function FirstAt(s: Bytes, part: Bytes, from: nat): (i: nat)
    requires from <= |s| + 1
    ensures from <= i <= |s| + 1
    ensures i <= |s| ==> OccursAt(s, part, i)
    ensures forall k: nat :: from <= k < i ==> !OccursAt(s, part, k)
    decreases |s| + 1 - from
  {
    if from > |s| || OccursAt(s, part, from) then from else FirstAt(s, part, from + 1)
  }

  datatype HashNamespace = HashNamespace(namespace: Bytes, collection: Bytes)

  // strings.Cut at the first mark.
  function SplitHashNamespace(name: Bytes): Result<HashNamespace, DecodeError> {
    var i := FirstAt(name, HASH_MARK, 0);
    if i > |name| then Err(InvalidHashNamespace)
    else
      var collection := name[i + 3..];
      if i == 0 || collection == [] || FirstAt(collection, DOLLARS, 0) <= |collection| then Err(InvalidHashNamespace)
      else Ok(HashNamespace(name[..i], collection))
  }

  predicate WellFormedHash(h: HashNamespace) {
    h.namespace != [] && h.collection != [] && !HasPart(h.namespace, HASH_MARK) && !HasPart(h.collection, DOLLARS)
  }

  function HashName(h: HashNamespace): Bytes {
    h.namespace + HASH_MARK + h.collection
  }

  // The decoder accepts exactly the names built from a namespace without the mark and a
  // collection without "$$", and recovers both parts.
  lemma SplitSound(name: Bytes)
    requires SplitHashNamespace(name).Ok?
    ensures WellFormedHash(SplitHashNamespace(name).value) && HashName(SplitHashNamespace(name).value) == name
  {
    var i := FirstAt(name, HASH_MARK, 0);
    var h := SplitHashNamespace(name).value;
    assert name == name[..i] + name[i..i + 3] + name[i + 3..];
    forall k: nat | k <= |h.namespace| ensures !OccursAt(h.namespace, HASH_MARK, k) {
      if k + 3 <= |h.namespace| {
        assert name[k..k + 3] == h.namespace[k..k + 3];
        assert !OccursAt(name, HASH_MARK, k);
      }
    }
  }

  // The mark that ends the namespace is the first one.
  lemma NoEarlierMark(h: HashNamespace, k: nat)
    requires WellFormedHash(h) && k < |h.namespace|
    ensures !OccursAt(HashName(h), HASH_MARK, k)
  {
    var name, n := HashName(h), |h.namespace|;
    var part := name[k..k + 3];
    if k + 3 <= n {
      assert part == h.namespace[k..k + 3];
      assert !OccursAt(h.namespace, HASH_MARK, k);
    } else {
      assert part[2] == name[k + 2] == HASH_MARK[k + 2 - n] == 36;
    }
  }

  lemma SplitRoundTrip(h: HashNamespace)
    requires WellFormedHash(h)
    ensures SplitHashNamespace(HashName(h)) == Ok(h)
  {
    var name, n := HashName(h), |h.namespace|;
    forall k: nat | k < n ensures !OccursAt(name, HASH_MARK, k) { NoEarlierMark(h, k); }
    assert name[n..n + 3] == HASH_MARK;
    assert OccursAt(name, HASH_MARK, n);
    assert FirstAt(name, HASH_MARK, 0) == n;
    assert name[n + 3..] == h.collection && name[..n] == h.namespace;
    assert FirstAt(h.collection, DOLLARS, 0) > |h.collection|;
  }

  /* Mappings. */

  // An empty hash namespace means that hashes go where the public records go.
  datatype Mapping = Mapping(sourceChannel: Bytes, sourceNamespace: Bytes, target: Bytes, targetHash: Bytes)
  {
    function HashTarget(): Bytes {
      if targetHash != [] then targetHash else target
    }

    // Where this mapping sends a record of a public or a hash stream.
    function TargetOf(hashes: bool): Bytes {
      if hashes then HashTarget() else target
    }

    predicate Matches(channel: Bytes, namespace: Bytes) {
      sourceChannel == channel && sourceNamespace == namespace
    }
  }

  datatype MappingError =
    | NoMappings | MappedTwice | InvalidSource | InvalidTarget | MissingChannel | MissingNamespace | SplitError

  predicate UniqueSources(mappings: seq<Mapping>) {
    forall i, j | 0 <= i < j < |mappings| ::
      !mappings[j].Matches(mappings[i].sourceChannel, mappings[i].sourceNamespace)
  }

  const RESERVED: set<Bytes> := {[108, 115, 99, 99], [99, 115, 99, 99], [113, 115, 99, 99]}  // lscc, cscc, qscc

  predicate ValidSource(m: Mapping) {
    && m.sourceChannel != [] && m.sourceNamespace != [] && m.sourceNamespace[0] != 95  // '_'
    && FirstAt(m.sourceNamespace, DOLLARS, 0) > |m.sourceNamespace| && m.sourceNamespace !in RESERVED
  }

  lemma SpellDollars()
    ensures DOLLARS == Ascii("$$") && HASH_MARK == Ascii("$$h")
    ensures RESERVED == {Ascii("lscc"), Ascii("cscc"), Ascii("qscc")}
  {
    assert Ascii("lscc") == [108, 115, 99, 99];
    assert Ascii("cscc") == [99, 115, 99, 99];
    assert Ascii("qscc") == [113, 115, 99, 99];
  }

  // Which sources may be mapped.
  lemma ValidSourceExact(m: Mapping)
    ensures ValidSource(m) <==>
            && m.sourceChannel != [] && m.sourceNamespace != [] && m.sourceNamespace[0] != '_' as int
            && !HasPart(m.sourceNamespace, Ascii("$$"))
            && m.sourceNamespace !in {Ascii("lscc"), Ascii("cscc"), Ascii("qscc")}
  {
    hide OccursAt;
    SpellDollars();
    var i := FirstAt(m.sourceNamespace, DOLLARS, 0);
    if i <= |m.sourceNamespace| { assert OccursAt(m.sourceNamespace, DOLLARS, i); }
  }

  // `allowed` is the committer's check of a namespace ID that is not a system namespace.
  predicate ValidMapping(allowed: Bytes -> bool, m: Mapping) {
    ValidSource(m) && allowed(m.target) && (m.targetHash != [] ==> allowed(m.targetHash))
  }

  predicate SourceLess(a: Mapping, b: Mapping) {
    Less(a.sourceChannel, b.sourceChannel)
    || (a.sourceChannel == b.sourceChannel && Less(a.sourceNamespace, b.sourceNamespace))
  }

  function InsertMapping(m: Mapping, sorted: seq<Mapping>): seq<Mapping> {
    if sorted == [] || SourceLess(m, sorted[0]) then [m] + sorted else [sorted[0]] + InsertMapping(m, sorted[1..])
  }

  function SortMappings(mappings: seq<Mapping>): seq<Mapping> {
    if mappings == [] then [] else InsertMapping(mappings[0], SortMappings(mappings[1..]))
  }

  lemma {:induction false} InsertMappingPermutes(m: Mapping, sorted: seq<Mapping>)
    ensures multiset(InsertMapping(m, sorted)) == multiset{m} + multiset(sorted)
  {
    if sorted != [] {
      assert sorted == [sorted[0]] + sorted[1..];
      InsertMappingPermutes(m, sorted[1..]);
    }
  }

  lemma {:induction false} SortMappingsPermutes(mappings: seq<Mapping>)
    ensures multiset(SortMappings(mappings)) == multiset(mappings)
  {
    if mappings != [] {
      assert mappings == [mappings[0]] + mappings[1..];
      SortMappingsPermutes(mappings[1..]);
      InsertMappingPermutes(mappings[0], SortMappings(mappings[1..]));
    }
  }

  lemma SourceLessTransitive(a: Mapping, b: Mapping, c: Mapping)
    requires SourceLess(a, b) && SourceLess(b, c)
    ensures SourceLess(a, c)
  {
    if Less(a.sourceChannel, b.sourceChannel) && Less(b.sourceChannel, c.sourceChannel) {
      LessTransitive(a.sourceChannel, b.sourceChannel, c.sourceChannel);
    }
    if Less(a.sourceNamespace, b.sourceNamespace) && Less(b.sourceNamespace, c.sourceNamespace) {
      LessTransitive(a.sourceNamespace, b.sourceNamespace, c.sourceNamespace);
    }
  }

  // Strictly ascending sources: sorted, and no source twice.
  predicate Ascending(mappings: seq<Mapping>) {
    forall i, j | 0 <= i < j < |mappings| :: SourceLess(mappings[i], mappings[j])
  }

  lemma {:induction false} InsertMappingAscending(m: Mapping, sorted: seq<Mapping>)
    requires Ascending(sorted)
    requires forall x | x in sorted :: !x.Matches(m.sourceChannel, m.sourceNamespace)
    ensures Ascending(InsertMapping(m, sorted))
  {
    if sorted != [] {
      LessTotal(m.sourceChannel, sorted[0].sourceChannel);
      LessTotal(m.sourceNamespace, sorted[0].sourceNamespace);
      assert sorted[0] in sorted;
      if SourceLess(m, sorted[0]) {
        forall j | 1 <= j < |sorted| ensures SourceLess(m, sorted[j]) { SourceLessTransitive(m, sorted[0], sorted[j]); }
      } else {
        InsertMappingAscending(m, sorted[1..]);
        InsertMappingPermutes(m, sorted[1..]);
        var rest := InsertMapping(m, sorted[1..]);
        forall j | 0 <= j < |rest| ensures SourceLess(sorted[0], rest[j]) {
          assert rest[j] in multiset(rest);
          if rest[j] != m { assert rest[j] in sorted[1..]; }
        }
      }
    }
  }

  lemma {:induction false} SortMappingsAscending(mappings: seq<Mapping>)
    requires UniqueSources(mappings)
    ensures Ascending(SortMappings(mappings))
  {
    if mappings != [] {
      var rest := mappings[1..];
      assert forall i | 0 <= i < |rest| :: rest[i] == mappings[i + 1];
      SortMappingsAscending(rest);
      SortMappingsPermutes(rest);
      forall x | x in SortMappings(rest) ensures !x.Matches(mappings[0].sourceChannel, mappings[0].sourceNamespace) {
        assert x in multiset(SortMappings(rest));
        assert x in rest;
      }
      InsertMappingAscending(mappings[0], SortMappings(rest));
    }
  }

  lemma AscendingUnique(mappings: seq<Mapping>)
    requires Ascending(mappings)
    ensures UniqueSources(mappings)
  {
    forall i, j | 0 <= i < j < |mappings|
      ensures !mappings[j].Matches(mappings[i].sourceChannel, mappings[i].sourceNamespace)
    {
      LessIrreflexive(mappings[i].sourceChannel);
      LessIrreflexive(mappings[i].sourceNamespace);
    }
  }

  // A mapping file that is accepted.
  predicate Usable(allowed: Bytes -> bool, network: Bytes, mappings: seq<Mapping>) {
    && network != [] && mappings != [] && UniqueSources(mappings)
    && forall m | m in mappings :: ValidMapping(allowed, m)
  }

  // A usable file names the network, has mappings, and gives each source one mapping to an allowed
  // target, with an allowed hash target when it names one.
  lemma UsableExact(allowed: Bytes -> bool, network: Bytes, mappings: seq<Mapping>)
    ensures Usable(allowed, network, mappings) <==>
            && network != [] && mappings != []
            && (forall i, j | 0 <= i < j < |mappings| ::
                  mappings[i].sourceChannel != mappings[j].sourceChannel
                  || mappings[i].sourceNamespace != mappings[j].sourceNamespace)
            && (forall m | m in mappings ::
                  && m.sourceChannel != [] && m.sourceNamespace != [] && m.sourceNamespace[0] != '_' as int
                  && !HasPart(m.sourceNamespace, Ascii("$$"))
                  && m.sourceNamespace !in {Ascii("lscc"), Ascii("cscc"), Ascii("qscc")}
                  && allowed(m.target) && (m.targetHash == [] || allowed(m.targetHash)))
  {
    hide ValidSource, HasPart;
    forall m | m in mappings { ValidSourceExact(m); }
  }

  // Ascending is by channel, and within a channel by namespace, in byte order.
  lemma AscendingExact(mappings: seq<Mapping>)
    ensures Ascending(mappings) <==>
            forall i, j | 0 <= i < j < |mappings| ::
              || Precedes(mappings[i].sourceChannel, mappings[j].sourceChannel)
              || (mappings[i].sourceChannel == mappings[j].sourceChannel
                  && Precedes(mappings[i].sourceNamespace, mappings[j].sourceNamespace))
  {
    hide Less, Precedes;
    forall i, j | 0 <= i < j < |mappings|
      ensures SourceLess(mappings[i], mappings[j]) <==>
              || Precedes(mappings[i].sourceChannel, mappings[j].sourceChannel)
              || (mappings[i].sourceChannel == mappings[j].sourceChannel
                  && Precedes(mappings[i].sourceNamespace, mappings[j].sourceNamespace))
    {
      LessExact(mappings[i].sourceChannel, mappings[j].sourceChannel);
      LessExact(mappings[i].sourceNamespace, mappings[j].sourceNamespace);
    }
  }

  // readMappings after JSON decoding: accepted exactly when every mapping is valid and no source
  // is mapped twice; the result is the same mappings in strictly ascending source order.
  method ReadMappings(allowed: Bytes -> bool, network: Bytes, mappings: seq<Mapping>)
    returns (r: Result<seq<Mapping>, MappingError>)
    ensures r.Ok? <==> Usable(allowed, network, mappings)
    ensures r.Ok? ==> multiset(r.value) == multiset(mappings) && Ascending(r.value) && r.value == SortMappings(mappings)
  {
    hide ValidSource, SortMappings, Ascending;
    if network == [] || mappings == [] { return Err(NoMappings); }
    var seen: set<(Bytes, Bytes)> := {};
    for i := 0 to |mappings|
      invariant forall k | 0 <= k < i :: ValidMapping(allowed, mappings[k])
      invariant forall k | 0 <= k < i :: (mappings[k].sourceChannel, mappings[k].sourceNamespace) in seen
      invariant forall s | s in seen :: exists k :: 0 <= k < i && mappings[k].Matches(s.0, s.1)
      invariant UniqueSources(mappings[..i])
    {
      var m := mappings[i];
      assert m in mappings;
      var key := (m.sourceChannel, m.sourceNamespace);
      if key in seen {
        var k :| 0 <= k < i && mappings[k].Matches(key.0, key.1);
        return Err(MappedTwice);
      }
      seen := seen + {key};
      if !ValidSource(m) { return Err(InvalidSource); }
      if !allowed(m.target) { return Err(InvalidTarget); }
      if m.targetHash != [] && !allowed(m.targetHash) { return Err(InvalidTarget); }
      assert mappings[..i + 1] == mappings[..i] + [m];
      assert m.Matches(key.0, key.1);
    }
    assert mappings[..|mappings|] == mappings;
    SortMappingsPermutes(mappings);
    SortMappingsAscending(mappings);
    return Ok(SortMappings(mappings));
  }

  // mappingFor: the first mapping of a source.
  function MappingFor(mappings: seq<Mapping>, channel: Bytes, namespace: Bytes): (r: Option<Mapping>)
    ensures r.Some? ==> r.value in mappings && r.value.Matches(channel, namespace)
    ensures r.Some? ==> exists k :: 0 <= k < |mappings| && mappings[k] == r.value
                                    && forall j | 0 <= j < k :: !mappings[j].Matches(channel, namespace)
    ensures r.None? ==> forall m | m in mappings :: !m.Matches(channel, namespace)
  {
    if mappings == [] then None
    else if mappings[0].Matches(channel, namespace) then Some(mappings[0])
    else
      var rest := mappings[1..];
      assert forall j | 1 <= j < |mappings| :: mappings[j] == rest[j - 1];
      assert forall j | 0 <= j < |rest| :: rest[j] == mappings[j + 1];
      MappingFor(rest, channel, namespace)
  }

  method FindMapping(mappings: seq<Mapping>, channel: Bytes, namespace: Bytes) returns (r: Option<Mapping>)
    ensures r == MappingFor(mappings, channel, namespace)
  {
    for i := 0 to |mappings|
      invariant MappingFor(mappings, channel, namespace) == MappingFor(mappings[i..], channel, namespace)
    {
      assert mappings[i..][0] == mappings[i] && mappings[i..][1..] == mappings[i + 1..];
      if mappings[i].Matches(channel, namespace) { return Some(mappings[i]); }
    }
    return None;
  }
}
