/** The `walk` closure of Import: every record of every snapshot goes to at most one target. The
    number of records routed to a target is the number mappingCounts announces. */
module Routing {
  import opened Prelude
  import opened Varint
  import opened Snapshot
  import opened Stream
  import opened StreamTheorems
  import opened Mappings
  import opened Counts

  datatype Routed = Routed(target: Bytes, key: Bytes, value: Bytes)

  datatype RouteError = KeyLevelMetadata | WalkFailed(error: DecodeError)

  // The callback given to the public or the hash walk of a channel.
  function RouteRecord(mappings: seq<Mapping>, channel: Bytes, hashes: bool,
                       r: Record): Result<seq<Routed>, RouteError>
  {
    var source := SourceOf(r.namespace, hashes);
    if source.None? then Err(WalkFailed(InvalidHashNamespace))
    else
      var mapping := MappingFor(mappings, channel, source.value);
      if mapping.None? then Ok([])
      else if r.metadata.Some? && r.metadata.value != [] then Err(KeyLevelMetadata)
      else Ok([Routed(mapping.value.TargetOf(hashes), r.key, if r.value.Some? then r.value.value else [])])
  }

  function RouteRecords(mappings: seq<Mapping>, channel: Bytes, hashes: bool, records: seq<Record>)
    : Result<seq<Routed>, RouteError>
  {
    if records == [] then Ok([])
    else
      var head :- RouteRecord(mappings, channel, hashes, records[0]);
      var tail :- RouteRecords(mappings, channel, hashes, records[1..]);
      Ok(head + tail)
  }

  function RouteStream(mappings: seq<Mapping>, channel: Bytes, hashes: bool,
                       walk: Outcome): Result<seq<Routed>, RouteError>
  {
    var routed :- RouteRecords(mappings, channel, hashes, walk.yielded);
    if walk.error.Some? then Err(WalkFailed(walk.error.value)) else Ok(routed)
  }

  function RouteChannel(mappings: seq<Mapping>, channel: Bytes, s: SnapshotStream): Result<seq<Routed>, RouteError> {
    var public :- RouteStream(mappings, channel, false, s.Walk(false));
    var hashes :- RouteStream(mappings, channel, true, s.Walk(true));
    Ok(public + hashes)
  }

  predicate HasChannels(snapshots: map<Bytes, SnapshotStream>, channels: seq<Bytes>) {
    forall c | c in channels :: c in snapshots
  }

  function RouteAll(mappings: seq<Mapping>, snapshots: map<Bytes, SnapshotStream>, channels: seq<Bytes>)
    : Result<seq<Routed>, RouteError>
    requires HasChannels(snapshots, channels)
  {
    if channels == [] then Ok([])
    else
      var head :- RouteChannel(mappings, channels[0], snapshots[channels[0]]);
      var tail :- RouteAll(mappings, snapshots, channels[1..]);
      Ok(head + tail)
  }

  /* The loops. */

  method RouteStreamLoop(mappings: seq<Mapping>, channel: Bytes, hashes: bool, walk: Outcome)
    returns (r: Result<seq<Routed>, RouteError>)
    ensures r == RouteStream(mappings, channel, hashes, walk)
  {
    var routed: seq<Routed> := [];
    var records := walk.yielded;
    ghost var all := RouteRecords(mappings, channel, hashes, records);
    PrependNone(all);
    for i := 0 to |records|
      invariant all == PrependRouted(routed, RouteRecords(mappings, channel, hashes, records[i..]))
    {
      assert records[i..][0] == records[i] && records[i..][1..] == records[i + 1..];
      var source := SourceOf(records[i].namespace, hashes);
      if source.None? { return Err(WalkFailed(InvalidHashNamespace)); }
      var mapping := FindMapping(mappings, channel, source.value);
      ghost var tail := RouteRecords(mappings, channel, hashes, records[i + 1..]);
      if mapping.Some? {
        if records[i].metadata.Some? && records[i].metadata.value != [] { return Err(KeyLevelMetadata); }
        var next := Routed(mapping.value.TargetOf(hashes), records[i].key,
                           if records[i].value.Some? then records[i].value.value else []);
        PrependAgain(routed, [next], tail);
        routed := routed + [next];
      } else {
        PrependNone(tail);
      }
    }
    assert routed + [] == routed;
    if walk.error.Some? { return Err(WalkFailed(walk.error.value)); }
    return Ok(routed);
  }

  function PrependRouted(routed: seq<Routed>, r: Result<seq<Routed>, RouteError>): Result<seq<Routed>, RouteError> {
    match r case Ok(more) => Ok(routed + more) case Err(e) => Err(e)
  }

  lemma PrependAgain(a: seq<Routed>, b: seq<Routed>, r: Result<seq<Routed>, RouteError>)
    ensures PrependRouted(a, PrependRouted(b, r)) == PrependRouted(a + b, r)
  {
    if r.Ok? { assert a + (b + r.value) == (a + b) + r.value; }
  }

  lemma PrependNone(r: Result<seq<Routed>, RouteError>)
    ensures PrependRouted([], r) == r
  {
    if r.Ok? { assert [] + r.value == r.value; }
  }

  method WalkSources(mappings: seq<Mapping>, snapshots: map<Bytes, SnapshotStream>)
    returns (channels: seq<Bytes>, r: Result<seq<Routed>, RouteError>)
    ensures StrictlySorted(Itself, channels) && Elements(channels) == snapshots.Keys && HasChannels(snapshots, channels)
    ensures r == RouteAll(mappings, snapshots, channels)
  {
    channels := SortedKeys(snapshots.Keys);
    forall c | c in channels ensures c in snapshots { assert c in Elements(channels); }
    var routed: seq<Routed> := [];
    ghost var all := RouteAll(mappings, snapshots, channels);
    PrependNone(all);
    assert channels[0..] == channels;
    for i := 0 to |channels|
      invariant HasChannels(snapshots, channels[i..])
      invariant all == PrependRouted(routed, RouteAll(mappings, snapshots, channels[i..]))
    {
      var s := snapshots[channels[i]];
      assert channels[i..][0] == channels[i] && channels[i..][1..] == channels[i + 1..];
      ghost var tail := RouteAll(mappings, snapshots, channels[i + 1..]);
      var public := RouteStreamLoop(mappings, channels[i], false, s.Walk(false));
      if public.Err? { return channels, public; }
      var hashes := RouteStreamLoop(mappings, channels[i], true, s.Walk(true));
      if hashes.Err? { return channels, hashes; }
      PrependAgain(routed, public.value + hashes.value, tail);
      routed := routed + (public.value + hashes.value);
    }
    assert routed + [] == routed;
    r := Ok(routed);
  }

  /* Conservation. */

  function RoutedTo(routed: seq<Routed>, target: Bytes): nat {
    if routed == [] then 0 else (if routed[0].target == target then 1 else 0) + RoutedTo(routed[1..], target)
  }

  lemma {:induction false} RoutedToAppend(a: seq<Routed>, b: seq<Routed>, target: Bytes)
    ensures RoutedTo(a + b, target) == RoutedTo(a, target) + RoutedTo(b, target)
  {
    if a == [] {
      assert a + b == b;
    } else {
      assert (a + b)[1..] == a[1..] + b;
      RoutedToAppend(a[1..], b, target);
    }
  }

  // Which names of a stream go to a target.
  function Goes(mappings: seq<Mapping>, channel: Bytes, hashes: bool, target: Bytes): Bytes -> bool {
    name =>
      var source := SourceOf(name, hashes);
      source.Some? && MappingFor(mappings, channel, source.value).Some?
      && MappingFor(mappings, channel, source.value).value.TargetOf(hashes) == target
  }

  lemma {:induction false} RoutedAreKept(mappings: seq<Mapping>, channel: Bytes, hashes: bool, records: seq<Record>,
                                         target: Bytes)
    requires RouteRecords(mappings, channel, hashes, records).Ok?
    ensures RoutedTo(RouteRecords(mappings, channel, hashes, records).value, target)
            == CountKept(records, Goes(mappings, channel, hashes, target))
  {
    if records != [] {
      RoutedAreKept(mappings, channel, hashes, records[1..], target);
      var head := RouteRecord(mappings, channel, hashes, records[0]).value;
      RoutedToAppend(head, RouteRecords(mappings, channel, hashes, records[1..]).value, target);
      if head != [] { assert head[1..] == []; }
    }
  }

  // What the mappings of a channel contribute to a target, from one of its streams.
  function ChannelPart(mappings: seq<Mapping>, channel: Bytes, namespaces: seq<Namespace>, hashes: bool,
                       target: Bytes): nat
  {
    if mappings == [] then 0
    else
      (if mappings[0].sourceChannel == channel && mappings[0].TargetOf(hashes) == target
       then Announced(namespaces, Selects(mappings[0], hashes)) else 0)
      + ChannelPart(mappings[1..], channel, namespaces, hashes, target)
  }

  lemma {:induction false} ChannelPartNone(mappings: seq<Mapping>, channel: Bytes, hashes: bool, target: Bytes)
    ensures ChannelPart(mappings, channel, [], hashes, target) == 0
  {
    if mappings != [] { ChannelPartNone(mappings[1..], channel, hashes, target); }
  }

  lemma {:induction false} ChannelPartCons(mappings: seq<Mapping>, channel: Bytes, ns: Namespace, rest: seq<Namespace>,
                                           hashes: bool, target: Bytes)
    ensures ChannelPart(mappings, channel, [ns] + rest, hashes, target)
            == ChannelPart(mappings, channel, [ns], hashes, target)
               + ChannelPart(mappings, channel, rest, hashes, target)
  {
    if mappings != [] {
      AnnouncedAppend([ns], rest, Selects(mappings[0], hashes));
      ChannelPartCons(mappings[1..], channel, ns, rest, hashes, target);
    }
  }

  lemma AnnouncedOne(ns: Namespace, keep: Bytes -> bool)
    ensures Announced([ns], keep) == if keep(ns.name) then ns.records else 0
  {
    var rest := [ns][1..];
    assert rest == [] && Announced(rest, keep) == 0;
  }

  // One mapping, and then the others.
  lemma ChannelPartSplit(m: Mapping, rest: seq<Mapping>, channel: Bytes, namespaces: seq<Namespace>, hashes: bool,
                         target: Bytes)
    ensures ChannelPart([m], channel, namespaces, hashes, target)
            == if m.sourceChannel == channel && m.TargetOf(hashes) == target
               then Announced(namespaces, Selects(m, hashes)) else 0
    ensures ChannelPart([m] + rest, channel, namespaces, hashes, target)
            == ChannelPart([m], channel, namespaces, hashes, target)
               + ChannelPart(rest, channel, namespaces, hashes, target)
  {
    assert [m][1..] == [] && ([m] + rest)[1..] == rest;
    assert ChannelPart([m][1..], channel, namespaces, hashes, target) == 0;
  }

  // Nothing is contributed for a name that no mapping of the channel is for.
  lemma {:induction false} ChannelPartUnmapped(mappings: seq<Mapping>, channel: Bytes, ns: Namespace, hashes: bool,
                                               target: Bytes)
    requires SourceOf(ns.name, hashes).None?
             || forall m | m in mappings :: !m.Matches(channel, SourceOf(ns.name, hashes).value)
    ensures ChannelPart(mappings, channel, [ns], hashes, target) == 0
  {
    if mappings != [] {
      AnnouncedOne(ns, Selects(mappings[0], hashes));
      assert mappings[0] in mappings;
      ChannelPartUnmapped(mappings[1..], channel, ns, hashes, target);
    }
  }

  // With unique sources, a namespace is counted for the one mapping that routes its records.
  lemma {:induction false} ChannelPartOne(mappings: seq<Mapping>, channel: Bytes, ns: Namespace, hashes: bool,
                                          target: Bytes)
    requires UniqueSources(mappings)
    ensures ChannelPart(mappings, channel, [ns], hashes, target)
            == if Goes(mappings, channel, hashes, target)(ns.name) then ns.records else 0
  {
    var source := SourceOf(ns.name, hashes);
    if source.None? {
      ChannelPartUnmapped(mappings, channel, ns, hashes, target);
    } else if mappings != [] {
      var m, rest := mappings[0], mappings[1..];
      AnnouncedOne(ns, Selects(m, hashes));
      assert forall i | 0 <= i < |rest| :: rest[i] == mappings[i + 1];
      if m.Matches(channel, source.value) {
        ChannelPartUnmapped(rest, channel, ns, hashes, target);
      } else {
        ChannelPartOne(rest, channel, ns, hashes, target);
      }
    }
  }

  lemma {:induction false} AnnouncedByMapping(mappings: seq<Mapping>, channel: Bytes, namespaces: seq<Namespace>,
                                              hashes: bool, target: Bytes)
    requires UniqueSources(mappings)
    ensures Announced(namespaces, Goes(mappings, channel, hashes, target))
            == ChannelPart(mappings, channel, namespaces, hashes, target)
  {
    if namespaces == [] {
      ChannelPartNone(mappings, channel, hashes, target);
    } else {
      assert namespaces == [namespaces[0]] + namespaces[1..];
      ChannelPartCons(mappings, channel, namespaces[0], namespaces[1..], hashes, target);
      ChannelPartOne(mappings, channel, namespaces[0], hashes, target);
      AnnouncedByMapping(mappings, channel, namespaces[1..], hashes, target);
    }
  }

  // One stream: the records routed to a target are those announced for it.
  lemma StreamConserves(mappings: seq<Mapping>, channel: Bytes, s: SnapshotStream, hashes: bool, target: Bytes)
    requires UniqueSources(mappings) && Opened(s) && RouteStream(mappings, channel, hashes, s.Walk(hashes)).Ok?
    ensures RoutedTo(RouteStream(mappings, channel, hashes, s.Walk(hashes)).value, target)
            == ChannelPart(mappings, channel, s.Namespaces(hashes), hashes, target)
  {
    hide WalkFile, ReadNamespaces, RouteRecords, SplitHashNamespace;
    var keep := Goes(mappings, channel, hashes, target);
    RoutedAreKept(mappings, channel, hashes, s.Walk(hashes).yielded, target);
    AnnouncedByMapping(mappings, channel, s.Namespaces(hashes), hashes, target);
    var f := s.files;
    if !hashes {
      WalkConserves(Source(false, f.couchDB, f.lastBlock), f.publicMetadata, f.publicData, keep);
    } else if f.hashes.Some? {
      WalkConserves(Source(true, f.couchDB, f.lastBlock), f.hashes.value.metadata, f.hashes.value.data, keep);
    }
  }

  /* Summing over channels. */

  function ChannelTotal(mappings: seq<Mapping>, channel: Bytes, s: SnapshotStream, target: Bytes): nat {
    ChannelPart(mappings, channel, s.publicNamespaces, false, target)
    + ChannelPart(mappings, channel, s.hashNamespaces, true, target)
  }

  function SumChannels(mappings: seq<Mapping>, snapshots: map<Bytes, SnapshotStream>, channels: seq<Bytes>,
                       target: Bytes): nat
    requires HasChannels(snapshots, channels)
  {
    if channels == [] then 0
    else
      ChannelTotal(mappings, channels[0], snapshots[channels[0]], target)
      + SumChannels(mappings, snapshots, channels[1..], target)
  }

  lemma {:induction false} SumChannelsNone(snapshots: map<Bytes, SnapshotStream>, channels: seq<Bytes>, target: Bytes)
    requires HasChannels(snapshots, channels)
    ensures SumChannels([], snapshots, channels, target) == 0
  {
    if channels != [] { SumChannelsNone(snapshots, channels[1..], target); }
  }

  lemma {:induction false} SumChannelsCons(m: Mapping, rest: seq<Mapping>, snapshots: map<Bytes, SnapshotStream>,
                                           channels: seq<Bytes>, target: Bytes)
    requires HasChannels(snapshots, channels)
    ensures SumChannels([m] + rest, snapshots, channels, target)
            == SumChannels([m], snapshots, channels, target) + SumChannels(rest, snapshots, channels, target)
  {
    if channels != [] {
      var s := snapshots[channels[0]];
      ChannelPartSplit(m, rest, channels[0], s.publicNamespaces, false, target);
      ChannelPartSplit(m, rest, channels[0], s.hashNamespaces, true, target);
      SumChannelsCons(m, rest, snapshots, channels[1..], target);
    }
  }

  // A mapping contributes in its own channel only.
  lemma {:induction false} SumChannelsOne(m: Mapping, snapshots: map<Bytes, SnapshotStream>, channels: seq<Bytes>,
                                          target: Bytes)
    requires HasChannels(snapshots, channels) && NoDuplicates(channels) && m.sourceChannel in snapshots
    ensures SumChannels([m], snapshots, channels, target)
            == if m.sourceChannel in channels
               then Part(m, snapshots[m.sourceChannel], false, target)
                    + Part(m, snapshots[m.sourceChannel], true, target)
               else 0
  {
    if channels != [] {
      var s := snapshots[channels[0]];
      ChannelPartSplit(m, [], channels[0], s.publicNamespaces, false, target);
      ChannelPartSplit(m, [], channels[0], s.hashNamespaces, true, target);
      assert m.sourceChannel in channels <==> m.sourceChannel == channels[0] || m.sourceChannel in channels[1..];
      SumChannelsOne(m, snapshots, channels[1..], target);
    }
  }

  lemma {:induction false} SumChannelsTotal(mappings: seq<Mapping>, snapshots: map<Bytes, SnapshotStream>,
                                            channels: seq<Bytes>, target: Bytes)
    requires HasChannels(snapshots, channels) && NoDuplicates(channels) && AllChannels(mappings, snapshots)
    requires Elements(channels) == snapshots.Keys
    ensures SumChannels(mappings, snapshots, channels, target) == Total(mappings, snapshots, target)
  {
    if mappings == [] {
      SumChannelsNone(snapshots, channels, target);
    } else {
      assert mappings == [mappings[0]] + mappings[1..];
      SumChannelsCons(mappings[0], mappings[1..], snapshots, channels, target);
      assert mappings[0].sourceChannel in Elements(channels);
      SumChannelsOne(mappings[0], snapshots, channels, target);
      SumChannelsTotal(mappings[1..], snapshots, channels, target);
    }
  }

  lemma {:induction false} ChannelsConserve(mappings: seq<Mapping>, snapshots: map<Bytes, SnapshotStream>,
                                            channels: seq<Bytes>, target: Bytes)
    requires UniqueSources(mappings) && HasChannels(snapshots, channels)
    requires (forall c | c in snapshots :: Opened(snapshots[c])) && RouteAll(mappings, snapshots, channels).Ok?
    ensures RoutedTo(RouteAll(mappings, snapshots, channels).value, target)
            == SumChannels(mappings, snapshots, channels, target)
  {
    hide RouteStream, ChannelPart, Opened;
    if channels != [] {
      var c, s := channels[0], snapshots[channels[0]];
      ChannelsConserve(mappings, snapshots, channels[1..], target);
      var public := RouteStream(mappings, c, false, s.Walk(false)).value;
      var hashes := RouteStream(mappings, c, true, s.Walk(true)).value;
      StreamConserves(mappings, c, s, false, target);
      StreamConserves(mappings, c, s, true, target);
      RoutedToAppend(public, hashes, target);
      RoutedToAppend(public + hashes, RouteAll(mappings, snapshots, channels[1..]).value, target);
    }
  }

  // For every target, as many records are routed from all streams of all channels as the
  // metadata announces.
  lemma Conservation(mappings: seq<Mapping>, snapshots: map<Bytes, SnapshotStream>, channels: seq<Bytes>, target: Bytes)
    requires UniqueSources(mappings) && AllChannels(mappings, snapshots)
    requires forall c | c in snapshots :: Opened(snapshots[c])
    requires HasChannels(snapshots, channels) && NoDuplicates(channels) && Elements(channels) == snapshots.Keys
    requires RouteAll(mappings, snapshots, channels).Ok?
    ensures RoutedTo(RouteAll(mappings, snapshots, channels).value, target) == Total(mappings, snapshots, target)
  {
    ChannelsConserve(mappings, snapshots, channels, target);
    SumChannelsTotal(mappings, snapshots, channels, target);
  }
}
