/** What routing does, said of the yielded records and the mappings: which of them become rows, which
    row each one becomes, and when routing is refused. */
module RoutedRows {
  import opened Prelude
  import opened Stream
  import opened StreamTheorems
  import opened Mappings
  import opened Counts
  import opened Routing
  import opened Batch
  import opened Collisions

  // A record that a walk yields, and which walk it is.
  datatype Yield = Yield(channel: Bytes, hashes: bool, record: Record)

  // The mapping is for the record's namespace, or for the namespace that its collection belongs to.
  ghost predicate MapsFrom(m: Mapping, y: Yield) {
    m.sourceChannel == y.channel && Named(y.record.namespace, m.sourceNamespace, y.hashes)
  }

  ghost predicate IsMapped(mappings: seq<Mapping>, y: Yield) {
    exists m | m in mappings :: MapsFrom(m, y)
  }

  // The row of a mapped record: its key, and its value or empty bytes, in the target that the mapping
  // names; private hashes go to the hash target when there is one.
  ghost predicate RowOf(mappings: seq<Mapping>, y: Yield, row: Routed) {
    exists m | m in mappings && MapsFrom(m, y) ::
      && row.target == (if y.hashes && m.targetHash != [] then m.targetHash else m.target)
      && row.key == y.record.key
      && row.value == if y.record.value.Some? then y.record.value.value else []
  }

  // A mapped record with key-level metadata.
  ghost predicate Refused(mappings: seq<Mapping>, y: Yield) {
    IsMapped(mappings, y) && y.record.metadata.Some? && y.record.metadata.value != []
  }

  // A record of private hashes belongs to a collection.
  ghost predicate Splits(y: Yield) {
    y.hashes ==> exists source :: Named(y.record.namespace, source, true)
  }

  lemma RouteRecordExact(mappings: seq<Mapping>, y: Yield)
    ensures var r := RouteRecord(mappings, y.channel, y.hashes, y.record);
            && (r.Ok? <==> Splits(y) && !Refused(mappings, y))
            && (r == Err(KeyLevelMetadata) <==> Refused(mappings, y))
            && (Splits(y) && r.Err? ==> r == Err(KeyLevelMetadata))
            && (r.Ok? && !IsMapped(mappings, y) ==> r.value == [])
            && (r.Ok? && IsMapped(mappings, y) ==> |r.value| == 1 && RowOf(mappings, y, r.value[0]))
  {
    hide SplitHashNamespace, Named, MappingFor;
    var name, source := y.record.namespace, SourceOf(y.record.namespace, y.hashes);
    forall s ensures SourceOf(name, y.hashes) == Some(s) <==> Named(name, s, y.hashes) {
      SourceOfExact(name, s, y.hashes);
    }
    assert Splits(y) <==> source.Some?;
    if source.Some? {
      var mapping := MappingFor(mappings, y.channel, source.value);
      forall m | m in mappings ensures MapsFrom(m, y) <==> m.Matches(y.channel, source.value) {}
      assert IsMapped(mappings, y) <==> mapping.Some?;
      if mapping.Some? { assert MapsFrom(mapping.value, y); }
    }
  }

  // With unique sources a record has one row.
  lemma RowOfUnique(mappings: seq<Mapping>, y: Yield, a: Routed, b: Routed)
    requires UniqueSources(mappings) && RowOf(mappings, y, a) && RowOf(mappings, y, b)
    ensures a == b
  {
    hide Named;
    var m :| m in mappings && MapsFrom(m, y)
             && a.target == (if y.hashes && m.targetHash != [] then m.targetHash else m.target);
    var n :| n in mappings && MapsFrom(n, y)
             && b.target == (if y.hashes && n.targetHash != [] then n.targetHash else n.target);
    SourceOfExact(y.record.namespace, m.sourceNamespace, y.hashes);
    SourceOfExact(y.record.namespace, n.sourceNamespace, y.hashes);
    var i :| 0 <= i < |mappings| && mappings[i] == m;
    var j :| 0 <= j < |mappings| && mappings[j] == n;
    assert n.Matches(m.sourceChannel, m.sourceNamespace) && m.Matches(n.sourceChannel, n.sourceNamespace);
  }

  /* The rows are those of the mapped records, in order. */

  // `picks` are the positions of the mapped records, and the rows are theirs.
  ghost predicate Picks(mappings: seq<Mapping>, ys: seq<Yield>, rows: seq<Routed>, picks: seq<nat>) {
    && |picks| == |rows|
    && (forall i | 0 <= i < |picks| :: picks[i] < |ys| && RowOf(mappings, ys[picks[i]], rows[i]))
    && (forall i, j | 0 <= i < j < |picks| :: picks[i] < picks[j])
    && (forall k | 0 <= k < |ys| && IsMapped(mappings, ys[k]) :: k in picks)
  }

  function Shifted(picks: seq<nat>, n: nat): (r: seq<nat>)
    ensures |r| == |picks| && forall i | 0 <= i < |r| :: r[i] == picks[i] + n
  {
    seq(|picks|, i requires 0 <= i < |picks| => picks[i] + n)
  }

  lemma PicksAppend(mappings: seq<Mapping>, a: seq<Yield>, aRows: seq<Routed>, aPicks: seq<nat>,
                    b: seq<Yield>, bRows: seq<Routed>, bPicks: seq<nat>)
    requires Picks(mappings, a, aRows, aPicks) && Picks(mappings, b, bRows, bPicks)
    ensures Picks(mappings, a + b, aRows + bRows, aPicks + Shifted(bPicks, |a|))
  {
    hide RowOf, IsMapped, Shifted;
    var ys, rows, picks := a + b, aRows + bRows, aPicks + Shifted(bPicks, |a|);
    forall i | 0 <= i < |picks| ensures picks[i] < |ys| && RowOf(mappings, ys[picks[i]], rows[i]) {
      if i >= |aPicks| {
        var j := i - |aPicks|;
        assert picks[i] == bPicks[j] + |a| && rows[i] == bRows[j] && ys[picks[i]] == b[bPicks[j]];
      }
    }
    forall k | 0 <= k < |ys| && IsMapped(mappings, ys[k]) ensures k in picks {
      if k < |a| {
        assert k in aPicks;
      } else {
        var i :| 0 <= i < |bPicks| && bPicks[i] == k - |a|;
        assert picks[|aPicks| + i] == k;
      }
    }
  }

  function StreamYields(channel: Bytes, hashes: bool, records: seq<Record>): (ys: seq<Yield>)
    ensures |ys| == |records| && forall k | 0 <= k < |ys| :: ys[k] == Yield(channel, hashes, records[k])
  {
    seq(|records|, k requires 0 <= k < |records| => Yield(channel, hashes, records[k]))
  }

  lemma {:induction false} RecordsPicked(mappings: seq<Mapping>, channel: Bytes, hashes: bool, records: seq<Record>)
    returns (picks: seq<nat>)
    requires RouteRecords(mappings, channel, hashes, records).Ok?
    ensures Picks(mappings, StreamYields(channel, hashes, records),
                  RouteRecords(mappings, channel, hashes, records).value, picks)
    decreases records
  {
    hide RowOf, IsMapped, RouteRecord, Refused, Splits;
    if records == [] {
      picks := [];
    } else {
      var y, rest := Yield(channel, hashes, records[0]), records[1..];
      RouteRecordExact(mappings, y);
      var more := RecordsPicked(mappings, channel, hashes, rest);
      var head := RouteRecord(mappings, channel, hashes, records[0]).value;
      var tail := RouteRecords(mappings, channel, hashes, rest).value;
      var first: seq<nat> := if IsMapped(mappings, y) then [0] else [];
      assert Picks(mappings, [y], head, first);
      PicksAppend(mappings, [y], head, first, StreamYields(channel, hashes, rest), tail, more);
      picks := first + Shifted(more, 1);
      assert [y] + StreamYields(channel, hashes, rest) == StreamYields(channel, hashes, records);
    }
  }

  lemma {:induction false} RecordsOutcome(mappings: seq<Mapping>, channel: Bytes, hashes: bool, records: seq<Record>)
    ensures var r, ys := RouteRecords(mappings, channel, hashes, records), StreamYields(channel, hashes, records);
            && (r.Ok? <==> forall y | y in ys :: Splits(y) && !Refused(mappings, y))
            && (r.Err? && (forall y | y in ys :: Splits(y)) ==> r == Err(KeyLevelMetadata))
    decreases records
  {
    hide RouteRecord, Refused, Splits, RowOf, IsMapped;
    if records != [] {
      var y, rest := Yield(channel, hashes, records[0]), records[1..];
      RouteRecordExact(mappings, y);
      RecordsOutcome(mappings, channel, hashes, rest);
      assert StreamYields(channel, hashes, records) == [y] + StreamYields(channel, hashes, rest);
    }
  }

  // Of an opened snapshot every record splits.
  lemma OpenedSplits(s: SnapshotStream, channel: Bytes, hashes: bool)
    requires Opened(s)
    ensures forall y | y in StreamYields(channel, hashes, s.Walk(hashes).yielded) :: Splits(y)
  {
    hide SnapshotStream.Walk, Named, SplitHashNamespace;
    var records := s.Walk(hashes).yielded;
    OpenedWalk(s, hashes);
    if hashes {
      AllHashesSplit(s);
      forall k | 0 <= k < |records| ensures exists source :: Named(records[k].namespace, source, true) {
        var name := records[k].namespace;
        assert HasName(s.hashNamespaces, name);
        SourceOfExact(name, SplitHashNamespace(name).value.namespace, true);
      }
    }
  }

  lemma AllHashesSplit(s: SnapshotStream)
    requires Opened(s)
    ensures AllSplit(s.hashNamespaces)
  {
  }

  // One stream of an opened snapshot. A mapped record with key-level metadata refuses it, then the
  // walk's own error does; otherwise its rows are those of its mapped records, in order.
  lemma RouteStreamExact(mappings: seq<Mapping>, channel: Bytes, s: SnapshotStream, hashes: bool)
    returns (picks: seq<nat>)
    requires Opened(s)
    ensures var w, r := s.Walk(hashes), RouteStream(mappings, channel, hashes, s.Walk(hashes));
            var ys := StreamYields(channel, hashes, w.yielded);
            if exists y | y in ys :: Refused(mappings, y) then r == Err(KeyLevelMetadata)
            else if w.error.Some? then r == Err(WalkFailed(w.error.value))
            else r.Ok? && Picks(mappings, ys, r.value, picks)
  {
    hide Opened, SnapshotStream.Walk, RouteRecords, Refused, Splits, Picks;
    var records := s.Walk(hashes).yielded;
    OpenedSplits(s, channel, hashes);
    RecordsOutcome(mappings, channel, hashes, records);
    picks := [];
    if RouteRecords(mappings, channel, hashes, records).Ok? {
      picks := RecordsPicked(mappings, channel, hashes, records);
    }
  }

  /* All streams of all channels. */

  function ChannelYields(channel: Bytes, s: SnapshotStream): seq<Yield> {
    StreamYields(channel, false, s.Walk(false).yielded) + StreamYields(channel, true, s.Walk(true).yielded)
  }

  function AllYields(snapshots: map<Bytes, SnapshotStream>, channels: seq<Bytes>): seq<Yield>
    requires HasChannels(snapshots, channels)
  {
    if channels == [] then []
    else ChannelYields(channels[0], snapshots[channels[0]]) + AllYields(snapshots, channels[1..])
  }

  // A walk over the snapshots yields the record.
  predicate Yielded(snapshots: map<Bytes, SnapshotStream>, y: Yield) {
    y.channel in snapshots && y.record in snapshots[y.channel].Walk(y.hashes).yielded
  }

  lemma ChannelYieldsMember(channel: Bytes, s: SnapshotStream, y: Yield)
    ensures y in ChannelYields(channel, s) <==> y.channel == channel && y.record in s.Walk(y.hashes).yielded
  {
    hide SnapshotStream.Walk;
    var public, hashes := s.Walk(false).yielded, s.Walk(true).yielded;
    StreamYieldsMember(channel, false, public, y);
    StreamYieldsMember(channel, true, hashes, y);
  }

  lemma StreamYieldsMember(channel: Bytes, hashes: bool, records: seq<Record>, y: Yield)
    ensures y in StreamYields(channel, hashes, records)
            <==> y.channel == channel && y.hashes == hashes && y.record in records
  {
    var ys := StreamYields(channel, hashes, records);
    if y.channel == channel && y.hashes == hashes && y.record in records {
      var k :| 0 <= k < |records| && records[k] == y.record;
      assert ys[k] == y;
    }
  }

  lemma {:induction false} AllYieldsMember(snapshots: map<Bytes, SnapshotStream>, channels: seq<Bytes>, y: Yield)
    requires HasChannels(snapshots, channels)
    ensures y in AllYields(snapshots, channels) <==> y.channel in channels && Yielded(snapshots, y)
  {
    hide ChannelYields, SnapshotStream.Walk;
    if channels != [] {
      ChannelYieldsMember(channels[0], snapshots[channels[0]], y);
      AllYieldsMember(snapshots, channels[1..], y);
      assert y.channel in channels <==> y.channel == channels[0] || y.channel in channels[1..];
    }
  }

  // Both walks of the snapshot end well.
  predicate WalksEnd(s: SnapshotStream) {
    s.Walk(false).error.None? && s.Walk(true).error.None?
  }

  lemma RouteChannelExact(mappings: seq<Mapping>, channel: Bytes, s: SnapshotStream) returns (picks: seq<nat>)
    requires Opened(s)
    ensures var r := RouteChannel(mappings, channel, s);
            && (r.Ok? <==> WalksEnd(s) && forall y | y in ChannelYields(channel, s) :: !Refused(mappings, y))
            && (r.Ok? ==> Picks(mappings, ChannelYields(channel, s), r.value, picks))
  {
    hide Opened, SnapshotStream.Walk, RouteStream, Refused, Picks;
    var first := RouteStreamExact(mappings, channel, s, false);
    var second := RouteStreamExact(mappings, channel, s, true);
    var a := StreamYields(channel, false, s.Walk(false).yielded);
    picks := [];
    if RouteChannel(mappings, channel, s).Ok? {
      PicksAppend(mappings, a, RouteStream(mappings, channel, false, s.Walk(false)).value, first,
                  StreamYields(channel, true, s.Walk(true).yielded),
                  RouteStream(mappings, channel, true, s.Walk(true)).value, second);
      picks := first + Shifted(second, |a|);
    }
  }

  // Routing succeeds exactly when every walk ends well and no mapped record has key-level metadata.
  // The rows are then one for each mapped record, in the order of the walks.
  lemma {:induction false} RouteAllExact(mappings: seq<Mapping>, snapshots: map<Bytes, SnapshotStream>,
                                         channels: seq<Bytes>) returns (picks: seq<nat>)
    requires HasChannels(snapshots, channels) && forall c | c in snapshots :: Opened(snapshots[c])
    ensures var r, ys := RouteAll(mappings, snapshots, channels), AllYields(snapshots, channels);
            && (r.Ok? <==> (forall c | c in channels :: WalksEnd(snapshots[c]))
                           && forall y | y in ys :: !Refused(mappings, y))
            && (r.Ok? ==> Picks(mappings, ys, r.value, picks))
    decreases channels
  {
    hide Opened, WalksEnd, RouteChannel, ChannelYields, Refused, Picks;
    picks := [];
    if channels == [] {
      NothingPicked(mappings);
    } else {
      var c, rest := channels[0], channels[1..];
      var first := RouteChannelExact(mappings, c, snapshots[c]);
      var second := RouteAllExact(mappings, snapshots, rest);
      assert forall d :: d in channels <==> d == c || d in rest;
      if RouteAll(mappings, snapshots, channels).Ok? {
        PicksAppend(mappings, ChannelYields(c, snapshots[c]), RouteChannel(mappings, c, snapshots[c]).value, first,
                    AllYields(snapshots, rest), RouteAll(mappings, snapshots, rest).value, second);
        picks := first + Shifted(second, |ChannelYields(c, snapshots[c])|);
      }
    }
  }

  lemma NothingPicked(mappings: seq<Mapping>)
    ensures Picks(mappings, [], [], [])
  {
  }

  /* The tables. */

  // The row of every mapped record is stored at version 0, and every stored row is one.
  ghost predicate HoldsRecords(tables: Tables, targets: set<Bytes>, mappings: seq<Mapping>,
                               snapshots: map<Bytes, SnapshotStream>)
  {
    && (forall y, row | Yielded(snapshots, y) && RowOf(mappings, y, row) ::
          && row.target in targets && row.target in tables && row.key in tables[row.target]
          && tables[row.target][row.key] == Row(row.value, 0))
    && (forall t, k | t in targets && t in tables && k in tables[t] ::
          tables[t][k].version == 0
          && exists y :: Yielded(snapshots, y) && RowOf(mappings, y, Routed(t, k, tables[t][k].value)))
  }

  // The routed rows of one target are the rows of its mapped records.
  lemma RowsHeld(mappings: seq<Mapping>, ys: seq<Yield>, rows: seq<Routed>, picks: seq<nat>, y: Yield, row: Routed)
    requires UniqueSources(mappings) && Picks(mappings, ys, rows, picks) && NoCollision(rows)
    requires y in ys && RowOf(mappings, y, row)
    ensures row in rows && row.key in RowsFor(rows, row.target)
            && RowsFor(rows, row.target)[row.key] == Row(row.value, 0)
  {
    hide MapsFrom, UniqueSources, NoCollision, RowsFor;
    var k :| 0 <= k < |ys| && ys[k] == y;
    assert IsMapped(mappings, y);
    var i :| 0 <= i < |picks| && picks[i] == k;
    RowOfUnique(mappings, y, row, rows[i]);
    NoCollisionRows(rows, i);
  }

  lemma HeldRow(mappings: seq<Mapping>, ys: seq<Yield>, rows: seq<Routed>, picks: seq<nat>, t: Bytes, k: Bytes)
    returns (y: Yield)
    requires Picks(mappings, ys, rows, picks) && NoCollision(rows) && k in RowsFor(rows, t)
    ensures RowsFor(rows, t)[k].version == 0
    ensures y in ys && RowOf(mappings, y, Routed(t, k, RowsFor(rows, t)[k].value))
  {
    hide RowOf, IsMapped, NoCollision, RowsFor;
    RowsForKeys(rows, t);
    var i :| 0 <= i < |rows| && rows[i].target == t && rows[i].key == k;
    NoCollisionRows(rows, i);
    y := ys[picks[i]];
    assert rows[i] == Routed(t, k, RowsFor(rows, t)[k].value);
  }

  // Tables that hold the routed rows hold the records.
  lemma RoutedHeld(tables: Tables, targets: set<Bytes>, mappings: seq<Mapping>, snapshots: map<Bytes, SnapshotStream>,
                   channels: seq<Bytes>)
    requires UniqueSources(mappings) && (forall c | c in snapshots :: Opened(snapshots[c]))
    requires HasChannels(snapshots, channels) && Elements(channels) == snapshots.Keys
    requires RouteAll(mappings, snapshots, channels).Ok?
    requires var routed := RouteAll(mappings, snapshots, channels).value;
             && NoCollision(routed) && (forall i | 0 <= i < |routed| :: routed[i].target in targets)
             && forall t | t in targets :: t in tables && tables[t] == RowsFor(routed, t)
    ensures HoldsRecords(tables, targets, mappings, snapshots)
  {
    hide Opened, RouteAll, Refused, WalksEnd, RowOf, NoCollision, RowsFor, AllYields, Yielded, Picks, UniqueSources;
    var routed, ys := RouteAll(mappings, snapshots, channels).value, AllYields(snapshots, channels);
    var picks := RouteAllExact(mappings, snapshots, channels);
    forall y ensures y in ys <==> Yielded(snapshots, y) {
      AllYieldsMember(snapshots, channels, y);
      YieldedChannel(snapshots, y);
      assert y.channel in channels <==> y.channel in Elements(channels);
    }
    forall y, row | Yielded(snapshots, y) && RowOf(mappings, y, row)
      ensures && row.target in targets && row.target in tables && row.key in tables[row.target]
              && tables[row.target][row.key] == Row(row.value, 0)
    {
      RowsHeld(mappings, ys, routed, picks, y, row);
    }
    forall t, k | t in targets && t in tables && k in tables[t]
      ensures tables[t][k].version == 0
      ensures exists y :: Yielded(snapshots, y) && RowOf(mappings, y, Routed(t, k, tables[t][k].value))
    {
      var y := HeldRow(mappings, ys, routed, picks, t, k);
    }
  }

  lemma YieldedChannel(snapshots: map<Bytes, SnapshotStream>, y: Yield)
    ensures Yielded(snapshots, y) ==> y.channel in snapshots.Keys
  {
  }
}
