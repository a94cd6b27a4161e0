/** mappingCounts: how many records the snapshot metadata announces for each target namespace. */
module Counts {
  import opened Prelude
  import opened Varint
  import opened Snapshot
  import opened Stream
  import opened StreamTheorems
  import opened Mappings

  datatype HashFiles = HashFiles(metadata: Bytes, data: Bytes)

  datatype SnapshotFiles = SnapshotFiles(lastBlock: nat, couchDB: bool, publicMetadata: Bytes, publicData: Bytes,
                                         hashes: Option<HashFiles>)

  // An opened snapshot: its files and the namespaces their metadata announces.
  datatype SnapshotStream = SnapshotStream(files: SnapshotFiles, publicNamespaces: seq<Namespace>,
                                           hashNamespaces: seq<Namespace>)
  {
    function Namespaces(hashes: bool): seq<Namespace> {
      if hashes then hashNamespaces else publicNamespaces
    }

    // WalkPublicRecords and WalkPrivateHashRecords.
    function Walk(hashes: bool): Outcome {
      if !hashes then WalkFile(Source(false, files.couchDB, files.lastBlock), files.publicMetadata, files.publicData)
      else if files.hashes.None? then Outcome([], None)
      else WalkFile(Source(true, files.couchDB, files.lastBlock), files.hashes.value.metadata, files.hashes.value.data)
    }
  }

  predicate AllSplit(namespaces: seq<Namespace>) {
    forall i | 0 <= i < |namespaces| :: SplitHashNamespace(namespaces[i].name).Ok?
  }

  // The part of OpenStream that reads the namespaces.
  function OpenStream(files: SnapshotFiles): Result<SnapshotStream, DecodeError> {
    var publicNamespaces :- ReadNamespaces(files.publicMetadata);
    if files.hashes.None? then Ok(SnapshotStream(files, publicNamespaces, []))
    else
      var hashNamespaces :- ReadNamespaces(files.hashes.value.metadata);
      if AllSplit(hashNamespaces) then Ok(SnapshotStream(files, publicNamespaces, hashNamespaces))
      else Err(InvalidHashNamespace)
  }

  predicate Opened(s: SnapshotStream) {
    OpenStream(s.files) == Ok(s)
  }

  // The source namespace of a name in a public or a hash stream.
  function SourceOf(name: Bytes, hashes: bool): Option<Bytes> {
    if !hashes then Some(name)
    else match SplitHashNamespace(name) case Ok(h) => Some(h.namespace) case Err(_) => None
  }

  // The name is that of a source namespace, in a public stream, or of a collection of it, in a stream
  // of private hashes.
  ghost predicate Named(name: Bytes, source: Bytes, hashes: bool) {
    if !hashes then name == source
    else exists c :: WellFormedHash(HashNamespace(source, c)) && name == source + Ascii("$$h") + c
  }

  lemma SourceOfExact(name: Bytes, source: Bytes, hashes: bool)
    ensures SourceOf(name, hashes) == Some(source) <==> Named(name, source, hashes)
  {
    hide SplitHashNamespace, WellFormedHash;
    SpellDollars();
    if hashes {
      if SplitHashNamespace(name).Ok? {
        SplitSound(name);
        var h := SplitHashNamespace(name).value;
        assert h == HashNamespace(h.namespace, h.collection);
      }
      forall c | WellFormedHash(HashNamespace(source, c)) && name == source + Ascii("$$h") + c
        ensures SplitHashNamespace(name) == Ok(HashNamespace(source, c))
      {
        SplitRoundTrip(HashNamespace(source, c));
      }
    }
  }

  // Which names of a stream a mapping is for.
  function Selects(m: Mapping, hashes: bool): Bytes -> bool {
    name => SourceOf(name, hashes) == Some(m.sourceNamespace)
  }

  predicate HasSelected(namespaces: seq<Namespace>, m: Mapping, hashes: bool) {
    exists i :: 0 <= i < |namespaces| && Selects(m, hashes)(namespaces[i].name)
  }

  predicate Found(m: Mapping, s: SnapshotStream) {
    HasSelected(s.publicNamespaces, m, false) || HasSelected(s.hashNamespaces, m, true)
  }

  // What one mapping contributes to a target.
  function Part(m: Mapping, s: SnapshotStream, hashes: bool, target: Bytes): nat {
    if m.TargetOf(hashes) == target then Announced(s.Namespaces(hashes), Selects(m, hashes)) else 0
  }

  predicate AllChannels(mappings: seq<Mapping>, snapshots: map<Bytes, SnapshotStream>) {
    forall m | m in mappings :: m.sourceChannel in snapshots
  }

  function Total(mappings: seq<Mapping>, snapshots: map<Bytes, SnapshotStream>, target: Bytes): nat
    requires AllChannels(mappings, snapshots)
  {
    if mappings == [] then 0
    else
      var s := snapshots[mappings[0].sourceChannel];
      Part(mappings[0], s, false, target) + Part(mappings[0], s, true, target) + Total(mappings[1..], snapshots, target)
  }

  // A mapping is found by one public namespace or one collection of its source; either will do.
  lemma FoundExact(m: Mapping, s: SnapshotStream)
    ensures Found(m, s) <==>
            || (exists i :: 0 <= i < |s.publicNamespaces| && s.publicNamespaces[i].name == m.sourceNamespace)
            || (exists i :: 0 <= i < |s.hashNamespaces| && Named(s.hashNamespaces[i].name, m.sourceNamespace, true))
  {
    hide SourceOf;
    forall i | 0 <= i < |s.publicNamespaces|
      ensures Selects(m, false)(s.publicNamespaces[i].name) <==> s.publicNamespaces[i].name == m.sourceNamespace
    {
      SourceOfExact(s.publicNamespaces[i].name, m.sourceNamespace, false);
    }
    forall i | 0 <= i < |s.hashNamespaces|
      ensures Selects(m, true)(s.hashNamespaces[i].name) <==> Named(s.hashNamespaces[i].name, m.sourceNamespace, true)
    {
      SourceOfExact(s.hashNamespaces[i].name, m.sourceNamespace, true);
    }
  }

  /* Counting in uint64. */

  function Count(counts: map<Bytes, nat>, target: Bytes): nat {
    if target in counts then counts[target] else 0
  }

  function AddCount(counts: map<Bytes, nat>, target: Bytes, n: nat): map<Bytes, nat> {
    counts[target := (Count(counts, target) + n) % TWO_64]
  }

  // The table holds the expected numbers modulo 2^64.
  ghost predicate Counted(counts: map<Bytes, nat>, expected: Bytes -> nat) {
    forall t :: Count(counts, t) == expected(t) % TWO_64
  }

  // `n` more for one target.
  ghost function Plus(expected: Bytes -> nat, target: Bytes, n: nat): Bytes -> nat {
    t => expected(t) + if t == target then n else 0
  }

  lemma AddCountCounted(counts: map<Bytes, nat>, expected: Bytes -> nat, target: Bytes, n: nat)
    requires Counted(counts, expected)
    ensures Counted(AddCount(counts, target, n), Plus(expected, target, n))
    ensures AddCount(counts, target, n).Keys == counts.Keys + {target}
  {
    var more := AddCount(counts, target, n);
    forall t ensures Count(more, t) == Plus(expected, target, n)(t) % TWO_64 { ModAdd(expected(target), n); }
  }

  lemma PlusTwice(counts: map<Bytes, nat>, expected: Bytes -> nat, target: Bytes, a: nat, b: nat)
    ensures Counted(counts, Plus(Plus(expected, target, a), target, b))
            <==> Counted(counts, Plus(expected, target, a + b))
    ensures Counted(counts, Plus(expected, target, 0)) <==> Counted(counts, expected)
  {
    var x, y := Plus(Plus(expected, target, a), target, b), Plus(expected, target, a + b);
    assert forall t :: x(t) == y(t);
    assert forall t :: Plus(expected, target, 0)(t) == expected(t);
  }

  lemma ModAdd(x: nat, n: nat)
    ensures (x % TWO_64 + n) % TWO_64 == (x + n) % TWO_64
  {
    assert x == x / TWO_64 * TWO_64 + x % TWO_64;
    assert x + n == (x % TWO_64 + n) + x / TWO_64 * TWO_64;
    ModMultiple(x % TWO_64 + n, x / TWO_64);
  }

  lemma ModMultiple(y: nat, k: nat)
    ensures (y + k * TWO_64) % TWO_64 == y % TWO_64
  {
  }

  lemma {:induction false} AnnouncedAppend(a: seq<Namespace>, b: seq<Namespace>, keep: Bytes -> bool)
    ensures Announced(a + b, keep) == Announced(a, keep) + Announced(b, keep)
  {
    if a == [] {
      assert a + b == b;
    } else {
      assert (a + b)[1..] == a[1..] + b;
      AnnouncedAppend(a[1..], b, keep);
    }
  }

  lemma AnnouncedStep(namespaces: seq<Namespace>, i: nat, keep: Bytes -> bool)
    requires i < |namespaces|
    ensures Announced(namespaces[..i + 1], keep)
            == Announced(namespaces[..i], keep) + if keep(namespaces[i].name) then namespaces[i].records else 0
  {
    var one := [namespaces[i]];
    assert namespaces[..i + 1] == namespaces[..i] + one && one[1..] == [];
    assert Announced(one[1..], keep) == 0;
    AnnouncedAppend(namespaces[..i], one, keep);
  }

  // One of the two inner loops: count the selected namespaces of a stream for the mapping's target.
  method AddSelected(counts: map<Bytes, nat>, ghost before: Bytes -> nat, namespaces: seq<Namespace>, m: Mapping,
                     hashes: bool)
    returns (ok: bool, more: map<Bytes, nat>, found: bool)
    requires Counted(counts, before)
    ensures ok <==> !hashes || AllSplit(namespaces)
    ensures ok ==> (found <==> HasSelected(namespaces, m, hashes))
    ensures ok ==> more.Keys == counts.Keys + if found then {m.TargetOf(hashes)} else {}
    ensures ok ==> Counted(more, Plus(before, m.TargetOf(hashes), Announced(namespaces, Selects(m, hashes))))
  {
    hide SplitHashNamespace, Counted, Plus, HasSelected, AllSplit, Announced, AddCount, Selects;
    more, found := counts, false;
    var target := m.TargetOf(hashes);
    ghost var keep := Selects(m, hashes);
    PlusTwice(counts, before, target, 0, 0);
    SelectedNone(m, hashes);
    assert namespaces[..0] == [];
    for i := 0 to |namespaces|
      invariant hashes ==> AllSplit(namespaces[..i])
      invariant found <==> HasSelected(namespaces[..i], m, hashes)
      invariant more.Keys == counts.Keys + if found then {target} else {}
      invariant Counted(more, Plus(before, target, Announced(namespaces[..i], keep)))
    {
      var ns := namespaces[i];
      AnnouncedStep(namespaces, i, keep);
      SelectedStep(namespaces, i, m, hashes);
      SelectsName(m, hashes, ns.name);
      if hashes && SplitHashNamespace(ns.name).Err? { return false, more, found; }
      if SourceOf(ns.name, hashes) == Some(m.sourceNamespace) {
        CountMore(more, before, target, Announced(namespaces[..i], keep), ns.records);
        more := AddCount(more, target, ns.records);
        found := true;
      }
    }
    assert namespaces[..|namespaces|] == namespaces;
    ok := true;
  }

  lemma CountMore(counts: map<Bytes, nat>, before: Bytes -> nat, target: Bytes, a: nat, b: nat)
    requires Counted(counts, Plus(before, target, a))
    ensures Counted(AddCount(counts, target, b), Plus(before, target, a + b))
    ensures AddCount(counts, target, b).Keys == counts.Keys + {target}
  {
    hide Counted, Plus;
    AddCountCounted(counts, Plus(before, target, a), target, b);
    PlusTwice(AddCount(counts, target, b), before, target, a, b);
  }

  lemma SelectedNone(m: Mapping, hashes: bool)
    ensures !HasSelected([], m, hashes) && AllSplit([]) && Announced([], Selects(m, hashes)) == 0
  {
  }

  lemma SelectsName(m: Mapping, hashes: bool, name: Bytes)
    ensures Selects(m, hashes)(name) <==> SourceOf(name, hashes) == Some(m.sourceNamespace)
  {
  }

  lemma SelectedStep(namespaces: seq<Namespace>, i: nat, m: Mapping, hashes: bool)
    requires i < |namespaces|
    ensures HasSelected(namespaces[..i + 1], m, hashes) <==>
            HasSelected(namespaces[..i], m, hashes) || Selects(m, hashes)(namespaces[i].name)
    ensures AllSplit(namespaces[..i + 1]) <==> AllSplit(namespaces[..i]) && SplitHashNamespace(namespaces[i].name).Ok?
    ensures AllSplit(namespaces) ==> SplitHashNamespace(namespaces[i].name).Ok?
  {
    hide SplitHashNamespace, Selects;
    var longer, shorter := namespaces[..i + 1], namespaces[..i];
    assert forall k | 0 <= k < i :: longer[k] == shorter[k];
    assert longer[i] == namespaces[i];
    if HasSelected(shorter, m, hashes) {
      var k :| 0 <= k < i && Selects(m, hashes)(shorter[k].name);
      assert Selects(m, hashes)(longer[k].name);
    }
    if AllSplit(longer) { assert SplitHashNamespace(longer[i].name).Ok?; }
  }

  // A mapping that is counted: its channel is there, its hash names are sound, a namespace is found.
  predicate Countable(m: Mapping, snapshots: map<Bytes, SnapshotStream>) {
    m.sourceChannel in snapshots
    && AllSplit(snapshots[m.sourceChannel].hashNamespaces) && Found(m, snapshots[m.sourceChannel])
  }

  // The targets that get an entry: every public target, and a hash target with hashes to receive.
  predicate Targeted(mappings: seq<Mapping>, snapshots: map<Bytes, SnapshotStream>, target: Bytes)
    requires AllChannels(mappings, snapshots)
  {
    exists m | m in mappings ::
      m.target == target
      || (m.HashTarget() == target && HasSelected(snapshots[m.sourceChannel].hashNamespaces, m, true))
  }

  // A target is the public target of a mapping, or receives the hashes of one: its hash target when
  // it names one, its public target otherwise.
  lemma TargetedExact(mappings: seq<Mapping>, snapshots: map<Bytes, SnapshotStream>, target: Bytes)
    requires AllChannels(mappings, snapshots)
    ensures Targeted(mappings, snapshots, target) <==>
            exists m | m in mappings ::
              || m.target == target
              || ((if m.targetHash == [] then m.target else m.targetHash) == target
                  && exists ns | ns in snapshots[m.sourceChannel].hashNamespaces ::
                       Named(ns.name, m.sourceNamespace, true))
  {
    hide Named;
    forall m | m in mappings
      ensures HasSelected(snapshots[m.sourceChannel].hashNamespaces, m, true)
              <==> exists ns | ns in snapshots[m.sourceChannel].hashNamespaces ::
                     Named(ns.name, m.sourceNamespace, true)
    {
      SelectedExact(snapshots[m.sourceChannel].hashNamespaces, m, true);
    }
  }

  lemma SelectedExact(namespaces: seq<Namespace>, m: Mapping, hashes: bool)
    ensures HasSelected(namespaces, m, hashes)
            <==> exists ns | ns in namespaces :: Named(ns.name, m.sourceNamespace, hashes)
  {
    hide SourceOf, Named;
    forall i | 0 <= i < |namespaces|
      ensures Selects(m, hashes)(namespaces[i].name) <==> Named(namespaces[i].name, m.sourceNamespace, hashes)
    {
      SourceOfExact(namespaces[i].name, m.sourceNamespace, hashes);
    }
    if ns :| ns in namespaces && Named(ns.name, m.sourceNamespace, hashes) {
      var i :| 0 <= i < |namespaces| && namespaces[i] == ns;
    }
  }

  lemma {:induction false} TotalAppend(mappings: seq<Mapping>, m: Mapping, snapshots: map<Bytes, SnapshotStream>,
                                       target: Bytes)
    requires AllChannels(mappings, snapshots) && m.sourceChannel in snapshots
    ensures AllChannels(mappings + [m], snapshots)
    ensures Total(mappings + [m], snapshots, target)
            == Total(mappings, snapshots, target) + Part(m, snapshots[m.sourceChannel], false, target)
               + Part(m, snapshots[m.sourceChannel], true, target)
  {
    hide Part;
    var all := mappings + [m];
    if mappings == [] {
      assert all == [m] && all[1..] == [];
      assert Total(all[1..], snapshots, target) == 0;
    } else {
      assert all[1..] == mappings[1..] + [m];
      TotalAppend(mappings[1..], m, snapshots, target);
    }
  }

  // Succeeds exactly when every mapping is countable. Every target then has its total, modulo
  // 2^64, and a target has an entry exactly when something may be routed to it.
  method MappingCounts(mappings: seq<Mapping>, snapshots: map<Bytes, SnapshotStream>)
    returns (r: Result<map<Bytes, nat>, MappingError>)
    ensures r.Ok? <==> forall m | m in mappings :: Countable(m, snapshots)
    ensures r.Ok? ==> && AllChannels(mappings, snapshots)
                      && (forall t :: Count(r.value, t) == Total(mappings, snapshots, t) % TWO_64)
                      && (forall t :: t in r.value <==> Targeted(mappings, snapshots, t))
  {
    hide Total, Found;
    var counts: map<Bytes, nat> := map[];
    TotalNone(snapshots);
    for i := 0 to |mappings|
      invariant forall m | m in mappings[..i] :: Countable(m, snapshots)
      invariant TableFor(counts, mappings[..i], snapshots)
    {
      var m := mappings[i];
      assert m in mappings && mappings[..i + 1] == mappings[..i] + [m];
      if m.sourceChannel !in snapshots { return Err(MissingChannel); }
      var result := CountMapping(counts, mappings[..i], m, snapshots);
      if result.Err? { return Err(result.error); }
      counts := result.value;
    }
    assert mappings[..|mappings|] == mappings;
    return Ok(counts);
  }

  ghost predicate TableFor(counts: map<Bytes, nat>, mappings: seq<Mapping>, snapshots: map<Bytes, SnapshotStream>) {
    && AllChannels(mappings, snapshots)
    && (forall t :: Count(counts, t) == Total(mappings, snapshots, t) % TWO_64)
    && (forall t :: t in counts <==> Targeted(mappings, snapshots, t))
  }

  lemma TotalNone(snapshots: map<Bytes, SnapshotStream>)
    ensures forall t :: Total([], snapshots, t) == 0
  {
  }

  ghost function Expected(mappings: seq<Mapping>, snapshots: map<Bytes, SnapshotStream>): Bytes -> nat
    requires AllChannels(mappings, snapshots)
  {
    t => if AllChannels(mappings, snapshots) then Total(mappings, snapshots, t) else 0
  }

  // What the loop body adds for one mapping.
  ghost function WithParts(expected: Bytes -> nat, m: Mapping, s: SnapshotStream): Bytes -> nat {
    Plus(Plus(expected, m.target, Announced(s.publicNamespaces, Selects(m, false))),
         m.HashTarget(), Announced(s.hashNamespaces, Selects(m, true)))
  }

  lemma TableAppend(counts: map<Bytes, nat>, done: seq<Mapping>, m: Mapping, snapshots: map<Bytes, SnapshotStream>,
                    more: map<Bytes, nat>)
    requires TableFor(counts, done, snapshots) && m.sourceChannel in snapshots
    requires Counted(more, WithParts(Expected(done, snapshots), m, snapshots[m.sourceChannel]))
    requires more.Keys == counts.Keys + {m.target}
                          + if HasSelected(snapshots[m.sourceChannel].hashNamespaces, m, true)
                            then {m.HashTarget()} else {}
    ensures TableFor(more, done + [m], snapshots)
  {
    hide Total, HasSelected, Targeted, Counted, WithParts, Count;
    TargetedAppend(done, m, snapshots);
    forall t ensures Count(more, t) == Total(done + [m], snapshots, t) % TWO_64 {
      TotalAt(done, m, snapshots, more, t);
    }
  }

  lemma TotalAt(done: seq<Mapping>, m: Mapping, snapshots: map<Bytes, SnapshotStream>, more: map<Bytes, nat>, t: Bytes)
    requires AllChannels(done, snapshots) && m.sourceChannel in snapshots
    requires Counted(more, WithParts(Expected(done, snapshots), m, snapshots[m.sourceChannel]))
    ensures AllChannels(done + [m], snapshots)
    ensures Count(more, t) == Total(done + [m], snapshots, t) % TWO_64
  {
    hide Total, Announced;
    TotalAppend(done, m, snapshots, t);
    assert WithParts(Expected(done, snapshots), m, snapshots[m.sourceChannel])(t) == Total(done + [m], snapshots, t);
  }

  // The loop body: one more mapping.
  method CountMapping(counts: map<Bytes, nat>, ghost done: seq<Mapping>, m: Mapping,
                      snapshots: map<Bytes, SnapshotStream>)
    returns (r: Result<map<Bytes, nat>, MappingError>)
    requires TableFor(counts, done, snapshots) && m.sourceChannel in snapshots
    ensures r.Ok? <==> Countable(m, snapshots)
    ensures r.Ok? ==> TableFor(r.value, done + [m], snapshots)
  {
    hide Total, Announced, SplitHashNamespace, HasSelected, Targeted;
    assert Counted(counts, Expected(done, snapshots));
    r := CountParts(counts, Expected(done, snapshots), m, snapshots[m.sourceChannel]);
    if r.Ok? { TableAppend(counts, done, m, snapshots, r.value); }
  }

  method CountParts(counts: map<Bytes, nat>, ghost before: Bytes -> nat, m: Mapping, s: SnapshotStream)
    returns (r: Result<map<Bytes, nat>, MappingError>)
    requires Counted(counts, before)
    ensures r.Ok? <==> AllSplit(s.hashNamespaces) && Found(m, s)
    ensures r.Ok? ==> Counted(r.value, WithParts(before, m, s))
    ensures r.Ok? ==> r.value.Keys == counts.Keys + {m.target}
                                      + if HasSelected(s.hashNamespaces, m, true) then {m.HashTarget()} else {}
  {
    hide Announced, HasSelected, AllSplit, Counted, Plus, AddCount, Mapping.HashTarget, Selects;
    var started := AddCount(counts, m.target, 0);
    StartCount(counts, before, m.target);
    var ok, more, public := AddSelected(started, before, s.publicNamespaces, m, false);
    ghost var middle := Plus(before, m.target, Announced(s.publicNamespaces, Selects(m, false)));
    var split, all, hashes := AddSelected(more, middle, s.hashNamespaces, m, true);
    if !split { return Err(SplitError); }
    if !public && !hashes { return Err(MissingNamespace); }
    return Ok(all);
  }

  // `counts[m.TargetNamespace] += 0` makes the entry and nothing else.
  lemma StartCount(counts: map<Bytes, nat>, before: Bytes -> nat, target: Bytes)
    requires Counted(counts, before)
    ensures Counted(AddCount(counts, target, 0), before)
    ensures AddCount(counts, target, 0).Keys == counts.Keys + {target}
  {
    AddCountCounted(counts, before, target, 0);
    PlusTwice(AddCount(counts, target, 0), before, target, 0, 0);
  }

  lemma TargetedAppend(done: seq<Mapping>, m: Mapping, snapshots: map<Bytes, SnapshotStream>)
    requires AllChannels(done, snapshots) && m.sourceChannel in snapshots
    ensures AllChannels(done + [m], snapshots)
    ensures forall t :: Targeted(done + [m], snapshots, t) <==>
              Targeted(done, snapshots, t) || t == m.target
              || (t == m.HashTarget() && HasSelected(snapshots[m.sourceChannel].hashNamespaces, m, true))
  {
    hide HasSelected;
    assert forall x :: x in done + [m] <==> x in done || x == m;
    assert m in done + [m];
  }
}
