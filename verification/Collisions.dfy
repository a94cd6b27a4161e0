/** When no two routed records can have the same target and key. */
module Collisions {
  import opened Prelude
  import opened Stream
  import opened StreamTheorems
  import opened Mappings
  import opened Counts
  import opened Routing
  import opened Batch

  // A namespace of the public or the hash stream of a channel.
  datatype Origin = Origin(channel: Bytes, hashes: bool, name: Bytes)

  // The metadata of the stream announces the namespace.
  predicate Present(snapshots: map<Bytes, SnapshotStream>, o: Origin) {
    o.channel in snapshots && HasName(snapshots[o.channel].Namespaces(o.hashes), o.name)
  }

  // Where the records of a namespace go, if anywhere.
  function Destination(mappings: seq<Mapping>, o: Origin): Option<Bytes> {
    var source := SourceOf(o.name, o.hashes);
    if source.None? then None
    else
      var mapping := MappingFor(mappings, o.channel, source.value);
      if mapping.None? then None else Some(mapping.value.TargetOf(o.hashes))
  }

  // No two namespaces share a target.
  ghost predicate Separate(mappings: seq<Mapping>, snapshots: map<Bytes, SnapshotStream>) {
    forall o, p | o != p && Present(snapshots, o) && Present(snapshots, p) && Destination(mappings, o).Some? ::
      Destination(mappings, o) != Destination(mappings, p)
  }

  // Every row comes from a present namespace of one of the channels.
  ghost predicate ComesFrom(mappings: seq<Mapping>, snapshots: map<Bytes, SnapshotStream>, channels: seq<Bytes>,
                            r: Routed)
  {
    exists o: Origin :: o.channel in channels && Present(snapshots, o) && Destination(mappings, o) == Some(r.target)
  }

  ghost predicate AllFrom(mappings: seq<Mapping>, snapshots: map<Bytes, SnapshotStream>, channels: seq<Bytes>,
                          rows: seq<Routed>)
  {
    forall i | 0 <= i < |rows| :: ComesFrom(mappings, snapshots, channels, rows[i])
  }

  // Every row of a stream carries the key of a record, and the target of that record's namespace.
  ghost predicate Carries(mappings: seq<Mapping>, channel: Bytes, hashes: bool, records: seq<Record>, r: Routed) {
    exists k :: 0 <= k < |records| && records[k].key == r.key
                && Destination(mappings, Origin(channel, hashes, records[k].namespace)) == Some(r.target)
  }

  ghost predicate AllCarried(mappings: seq<Mapping>, channel: Bytes, hashes: bool, records: seq<Record>,
                             rows: seq<Routed>)
  {
    forall i | 0 <= i < |rows| :: Carries(mappings, channel, hashes, records, rows[i])
  }

  lemma NoCollisionAppend(a: seq<Routed>, b: seq<Routed>)
    requires NoCollision(a) && NoCollision(b)
    requires forall i, j | 0 <= i < |a| && 0 <= j < |b| :: !(a[i].target == b[j].target && a[i].key == b[j].key)
    ensures NoCollision(a + b)
  {
  }

  lemma {:induction false} StreamCarried(mappings: seq<Mapping>, channel: Bytes, hashes: bool, records: seq<Record>)
    requires RouteRecords(mappings, channel, hashes, records).Ok?
    ensures AllCarried(mappings, channel, hashes, records, RouteRecords(mappings, channel, hashes, records).value)
  {
    if records != [] {
      var rest := records[1..];
      StreamCarried(mappings, channel, hashes, rest);
      var head := RouteRecord(mappings, channel, hashes, records[0]).value;
      var tail := RouteRecords(mappings, channel, hashes, rest).value;
      var rows := head + tail;
      forall i | 0 <= i < |rows| ensures Carries(mappings, channel, hashes, records, rows[i]) {
        if i < |head| {
          assert records[0].key == rows[i].key;
        } else {
          assert Carries(mappings, channel, hashes, rest, tail[i - |head|]);
          var k :| 0 <= k < |rest| && rest[k].key == rows[i].key
                   && Destination(mappings, Origin(channel, hashes, rest[k].namespace)) == Some(rows[i].target);
          assert records[k + 1] == rest[k];
        }
      }
    }
  }

  lemma {:induction false} StreamNoCollision(mappings: seq<Mapping>, snapshots: map<Bytes, SnapshotStream>,
                                             channel: Bytes, hashes: bool, records: seq<Record>)
    requires Separate(mappings, snapshots) && NoRepeatedKey(records)
    requires channel in snapshots && FromNamespaces(records, snapshots[channel].Namespaces(hashes))
    requires RouteRecords(mappings, channel, hashes, records).Ok?
    ensures NoCollision(RouteRecords(mappings, channel, hashes, records).value)
  {
    hide SnapshotStream.Namespaces, SourceOf, HasName;
    if records != [] {
      var first, rest := records[0], records[1..];
      assert forall k | 0 <= k < |rest| :: rest[k] == records[k + 1];
      StreamNoCollision(mappings, snapshots, channel, hashes, rest);
      StreamCarried(mappings, channel, hashes, rest);
      var head := RouteRecord(mappings, channel, hashes, first).value;
      var tail := RouteRecords(mappings, channel, hashes, rest).value;
      forall i, j | 0 <= i < |head| && 0 <= j < |tail|
        ensures !(head[i].target == tail[j].target && head[i].key == tail[j].key)
      {
        assert Carries(mappings, channel, hashes, rest, tail[j]);
        var k :| 0 <= k < |rest| && rest[k].key == tail[j].key
                 && Destination(mappings, Origin(channel, hashes, rest[k].namespace)) == Some(tail[j].target);
        var o, p := Origin(channel, hashes, first.namespace), Origin(channel, hashes, records[k + 1].namespace);
        assert Present(snapshots, o) && Present(snapshots, p);
        assert Destination(mappings, o) == Some(head[i].target);
      }
      NoCollisionAppend(head, tail);
    }
  }

  lemma CarriedComesFrom(mappings: seq<Mapping>, snapshots: map<Bytes, SnapshotStream>, channel: Bytes, hashes: bool,
                         records: seq<Record>, r: Routed) returns (o: Origin)
    requires channel in snapshots && FromNamespaces(records, snapshots[channel].Namespaces(hashes))
    requires Carries(mappings, channel, hashes, records, r)
    ensures o.channel == channel && o.hashes == hashes && Present(snapshots, o)
            && Destination(mappings, o) == Some(r.target)
  {
    var k :| 0 <= k < |records| && records[k].key == r.key
             && Destination(mappings, Origin(channel, hashes, records[k].namespace)) == Some(r.target);
    o := Origin(channel, hashes, records[k].namespace);
  }

  // A walk of an opened snapshot: no key twice, and only announced namespaces.
  lemma OpenedWalk(s: SnapshotStream, hashes: bool)
    requires Opened(s)
    ensures NoRepeatedKey(s.Walk(hashes).yielded) && FromNamespaces(s.Walk(hashes).yielded, s.Namespaces(hashes))
  {
    hide WalkNamespaces, ReadNamespaces, SplitHashNamespace, NoRepeatedKey, FromNamespaces;
    var f := s.files;
    WalkOfNothing();
    if !hashes {
      WalkWithin(Source(false, f.couchDB, f.lastBlock), f.publicMetadata, f.publicData);
    } else if f.hashes.Some? {
      WalkWithin(Source(true, f.couchDB, f.lastBlock), f.hashes.value.metadata, f.hashes.value.data);
    }
  }

  lemma WalkOfNothing()
    ensures NoRepeatedKey([]) && forall namespaces :: FromNamespaces([], namespaces)
  {
  }

  lemma WalkWithin(source: Source, metadata: Bytes, data: Bytes)
    requires ReadNamespaces(metadata).Ok?
    ensures NoRepeatedKey(WalkFile(source, metadata, data).yielded)
    ensures FromNamespaces(WalkFile(source, metadata, data).yielded, ReadNamespaces(metadata).value)
  {
    hide WalkNamespaces;
    var namespaces := ReadNamespaces(metadata).value;
    forall i, j | 0 <= i < j < |namespaces| ensures namespaces[i].name != namespaces[j].name {
      NamesDistinct(namespaces, i, j);
    }
    if data != [] { WalkNamespacesDistinct(source, data, 1, namespaces); }
  }

  lemma ChannelNoCollision(mappings: seq<Mapping>, snapshots: map<Bytes, SnapshotStream>, channel: Bytes)
    requires Separate(mappings, snapshots) && channel in snapshots && Opened(snapshots[channel])
    requires RouteChannel(mappings, channel, snapshots[channel]).Ok?
    ensures NoCollision(RouteChannel(mappings, channel, snapshots[channel]).value)
    ensures AllFrom(mappings, snapshots, [channel], RouteChannel(mappings, channel, snapshots[channel]).value)
  {
    hide Opened, RouteRecords, NoRepeatedKey, FromNamespaces, Destination, Present, SnapshotStream.Walk, NoCollision,
         Carries;
    var s := snapshots[channel];
    OpenedWalk(s, false);
    OpenedWalk(s, true);
    var a, b := s.Walk(false).yielded, s.Walk(true).yielded;
    StreamNoCollision(mappings, snapshots, channel, false, a);
    StreamNoCollision(mappings, snapshots, channel, true, b);
    StreamCarried(mappings, channel, false, a);
    StreamCarried(mappings, channel, true, b);
    var public := RouteRecords(mappings, channel, false, a).value;
    var hashes := RouteRecords(mappings, channel, true, b).value;
    forall i, j | 0 <= i < |public| && 0 <= j < |hashes|
      ensures !(public[i].target == hashes[j].target && public[i].key == hashes[j].key)
    {
      var o := CarriedComesFrom(mappings, snapshots, channel, false, a, public[i]);
      var p := CarriedComesFrom(mappings, snapshots, channel, true, b, hashes[j]);
    }
    NoCollisionAppend(public, hashes);
    var rows := public + hashes;
    forall i | 0 <= i < |rows| ensures ComesFrom(mappings, snapshots, [channel], rows[i]) {
      if i < |public| {
        var o := CarriedComesFrom(mappings, snapshots, channel, false, a, public[i]);
      } else {
        var o := CarriedComesFrom(mappings, snapshots, channel, true, b, hashes[i - |public|]);
      }
    }
  }

  // When routing sends distinct source namespaces to distinct targets, no record is routed onto
  // another one, so no insertion is refused.
  lemma {:induction false} SeparateNoCollision(mappings: seq<Mapping>, snapshots: map<Bytes, SnapshotStream>,
                                               channels: seq<Bytes>)
    requires Separate(mappings, snapshots) && HasChannels(snapshots, channels) && NoDuplicates(channels)
    requires (forall c | c in snapshots :: Opened(snapshots[c])) && RouteAll(mappings, snapshots, channels).Ok?
    ensures NoCollision(RouteAll(mappings, snapshots, channels).value)
    ensures AllFrom(mappings, snapshots, channels, RouteAll(mappings, snapshots, channels).value)
    decreases channels
  {
    hide Opened, RouteChannel, Destination, Present, NoCollision;
    if channels == [] {
      NothingCollides();
    } else {
      var c, rest := channels[0], channels[1..];
      assert channels == [c] + rest && c !in rest;
      ChannelNoCollision(mappings, snapshots, c);
      SeparateNoCollision(mappings, snapshots, rest);
      var head, tail := RouteChannel(mappings, c, snapshots[c]).value, RouteAll(mappings, snapshots, rest).value;
      forall i, j | 0 <= i < |head| && 0 <= j < |tail|
        ensures !(head[i].target == tail[j].target && head[i].key == tail[j].key)
      {
        assert ComesFrom(mappings, snapshots, [c], head[i]) && ComesFrom(mappings, snapshots, rest, tail[j]);
      }
      NoCollisionAppend(head, tail);
      var rows := head + tail;
      forall i | 0 <= i < |rows| ensures ComesFrom(mappings, snapshots, channels, rows[i]) {
        if i < |head| {
          assert ComesFrom(mappings, snapshots, [c], head[i]);
        } else {
          assert ComesFrom(mappings, snapshots, rest, tail[i - |head|]);
        }
      }
    }
  }

  lemma NothingCollides()
    ensures NoCollision([])
  {
  }
}
