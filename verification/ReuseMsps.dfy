/** reuseMSPs: add the organizations of the source channels to the target configuration. */
module ReuseMsps {
  import opened Prelude

  // The MSP value of an organization group. `rest` is the verification material.
  datatype MspDefinition =
    | FabricMsp(id: string, hasSigningIdentity: bool, rest: Bytes)
    | IdemixMsp(id: string, hasSigner: bool, rest: Bytes)
    | OtherMsp(code: int, rest: Bytes)

  // An organization group; None is a missing MSP value or one that does not decode.
  datatype OrgGroup = OrgGroup(msp: Option<MspDefinition>, rest: Bytes)

  type Groups = map<Bytes, OrgGroup>

  datatype MspError = UnusableMsp | DuplicateTargetMsp | ConflictingMsp | OrganizationNameTaken

  // publicMSP: an ID and public material only.
  predicate Public(group: OrgGroup) {
    match group.msp
    case Some(FabricMsp(id, secret, _)) => id != "" && !secret
    case Some(IdemixMsp(id, secret, _)) => id != "" && !secret
    case _ => false
  }

  function MspOf(group: OrgGroup): MspDefinition
    requires Public(group)
  {
    group.msp.value
  }

  function IdOf(group: OrgGroup): string
    requires Public(group)
  {
    MspOf(group).id
  }

  // Usable are named Fabric and Idemix MSPs without a signing identity or signer.
  lemma PublicExact(group: OrgGroup)
    ensures Public(group) <==>
            exists id, rest :: id != "" && (group.msp == Some(FabricMsp(id, false, rest))
                                            || group.msp == Some(IdemixMsp(id, false, rest)))
    ensures forall id, rest | id != "" && (group.msp == Some(FabricMsp(id, false, rest))
                                           || group.msp == Some(IdemixMsp(id, false, rest))) :: IdOf(group) == id
  {
    if Public(group) {
      var id, rest := group.msp.value.id, group.msp.value.rest;
      assert id != "";
      assert group.msp == Some(FabricMsp(id, false, rest)) || group.msp == Some(IdemixMsp(id, false, rest));
    }
  }

  // Every organization has a usable MSP and no ID occurs twice.
  ghost predicate UniqueMsps(groups: Groups) {
    && (forall name | name in groups :: Public(groups[name]))
    && (forall a, b | a in groups && b in groups && IdOf(groups[a]) == IdOf(groups[b]) :: a == b)
  }

  // The MSP of a group is in the target, with an equal definition.
  ghost predicate Present(target: Groups, group: OrgGroup) {
    Public(group) && exists name :: name in target && target[name].msp == group.msp
  }

  ghost predicate AllPresent(target: Groups, source: Groups) {
    forall name | name in source :: Present(target, source[name])
  }

  // Every group is an old one or a copy of a source group of that name.
  ghost predicate Extends(before: Groups, after: Groups, sources: map<Bytes, Groups>) {
    && (forall name | name in before :: name in after && after[name] == before[name])
    && (forall name | name in after :: name in before
          || exists channel :: channel in sources && name in sources[channel] && after[name] == sources[channel][name])
  }

  // `byID` and `byName`: the definition of each MSP ID in use and the ID of each organization.
  ghost predicate Indexed(groups: Groups, byID: map<string, MspDefinition>, byName: map<Bytes, string>) {
    && UniqueMsps(groups)
    && byName.Keys == groups.Keys && (forall name | name in groups :: byName[name] == IdOf(groups[name]))
    && (forall name | name in groups :: IdOf(groups[name]) in byID && byID[IdOf(groups[name])] == MspOf(groups[name]))
    && (forall id | id in byID :: exists name :: name in groups && IdOf(groups[name]) == id)
  }

  lemma IndexedPresent(groups: Groups, byID: map<string, MspDefinition>, byName: map<Bytes, string>, group: OrgGroup)
    requires Indexed(groups, byID, byName) && Public(group)
    ensures Present(groups, group) <==> IdOf(group) in byID && byID[IdOf(group)] == MspOf(group)
  {
    if IdOf(group) in byID && byID[IdOf(group)] == MspOf(group) {
      var name :| name in groups && IdOf(groups[name]) == IdOf(group);
      assert groups[name].msp == group.msp;
    }
  }

  lemma IndexedAdd(groups: Groups, byID: map<string, MspDefinition>, byName: map<Bytes, string>,
                   name: Bytes, group: OrgGroup)
    requires Indexed(groups, byID, byName) && Public(group) && name !in groups && IdOf(group) !in byID
    ensures Indexed(groups[name := group], byID[IdOf(group) := MspOf(group)], byName[name := IdOf(group)])
  {
    var after, ids := groups[name := group], byID[IdOf(group) := MspOf(group)];
    forall id | id in ids ensures exists n :: n in after && IdOf(after[n]) == id {
      if id == IdOf(group) {
        assert name in after;
      } else {
        var n :| n in groups && IdOf(groups[n]) == id;
        assert n in after;
      }
    }
  }

  lemma DuplicateFound(groups: Groups, done: Groups, byID: map<string, MspDefinition>, byName: map<Bytes, string>,
                       name: Bytes)
    requires Indexed(done, byID, byName) && name in groups && name !in done && Public(groups[name])
    requires forall n | n in done :: n in groups && done[n] == groups[n]
    requires IdOf(groups[name]) in byID
    ensures !UniqueMsps(groups)
  {
    var other :| other in done && IdOf(done[other]) == IdOf(groups[name]);
  }

  lemma LessOne(groups: Groups, rest: set<Bytes>, name: Bytes)
    requires name in rest && name in groups
    ensures groups - (rest - {name}) == (groups - rest)[name := groups[name]]
  {
  }

  lemma LessNone(groups: Groups)
    ensures groups - {} == groups
  {
  }

  // At most one group was added, under a new name.
  ghost predicate Grew(before: Groups, after: Groups, name: Bytes, group: OrgGroup) {
    after == before || (name !in before && after == before[name := group])
  }

  lemma ExtendsGrew(start: Groups, before: Groups, after: Groups, sources: map<Bytes, Groups>, channel: Bytes,
                    name: Bytes)
    requires Extends(start, before, sources) && channel in sources && name in sources[channel]
    requires Grew(before, after, name, sources[channel][name])
    ensures Extends(start, after, sources)
  {
  }

  lemma ExtendsTransitive(a: Groups, b: Groups, c: Groups, sources: map<Bytes, Groups>)
    requires Extends(a, b, sources) && Extends(b, c, sources)
    ensures Extends(a, c, sources)
  {
  }

  // The first organizations of a source, in name order, are present.
  ghost predicate PresentPrefix(groups: Groups, source: Groups, names: seq<Bytes>, count: nat)
    requires count <= |names|
  {
    forall k | 0 <= k < count :: names[k] in source && Present(groups, source[names[k]])
  }

  lemma PrefixNone(groups: Groups, source: Groups)
    ensures forall names :: PresentPrefix(groups, source, names, 0)
  {
  }

  lemma ExtendsItself(groups: Groups, sources: map<Bytes, Groups>)
    ensures Extends(groups, groups, sources)
  {
  }

  lemma PresentGrew(before: Groups, after: Groups, name: Bytes, group: OrgGroup, source: Groups, names: seq<Bytes>,
                    count: nat)
    requires count < |names| && PresentPrefix(before, source, names, count) && Grew(before, after, name, group)
    requires names[count] in source && Present(after, source[names[count]])
    ensures PresentPrefix(after, source, names, count + 1)
  {
    forall k | 0 <= k < count ensures Present(after, source[names[k]]) {
      assert Present(before, source[names[k]]);
      var n :| n in before && before[n].msp == source[names[k]].msp;
      assert n in after && after[n] == before[n];
    }
  }

  lemma PresentWhole(groups: Groups, source: Groups, names: seq<Bytes>)
    requires PresentPrefix(groups, source, names, |names|) && Elements(names) == source.Keys
    ensures AllPresent(groups, source)
  {
    forall name | name in source ensures Present(groups, source[name]) { assert name in Elements(names); }
  }

  ghost predicate ChannelsPresent(groups: Groups, sources: map<Bytes, Groups>, channels: seq<Bytes>, count: nat)
    requires count <= |channels|
  {
    forall k | 0 <= k < count :: channels[k] in sources && AllPresent(groups, sources[channels[k]])
  }

  ghost predicate EverythingPresent(groups: Groups, sources: map<Bytes, Groups>) {
    forall channel | channel in sources :: AllPresent(groups, sources[channel])
  }

  lemma ChannelsGrew(before: Groups, after: Groups, sources: map<Bytes, Groups>, channels: seq<Bytes>, count: nat)
    requires count < |channels| && ChannelsPresent(before, sources, channels, count)
    requires Extends(before, after, sources)
    requires channels[count] in sources && AllPresent(after, sources[channels[count]])
    ensures ChannelsPresent(after, sources, channels, count + 1)
  {
    forall k | 0 <= k < count ensures AllPresent(after, sources[channels[k]]) {
      PresentMonotone(before, after, sources[channels[k]]);
    }
  }

  lemma ChannelsWhole(groups: Groups, sources: map<Bytes, Groups>, channels: seq<Bytes>)
    requires ChannelsPresent(groups, sources, channels, |channels|) && Elements(channels) == sources.Keys
    ensures EverythingPresent(groups, sources)
  {
    forall channel | channel in sources ensures AllPresent(groups, sources[channel]) {
      assert channel in Elements(channels);
    }
  }

  // Once present, always present.
  lemma PresentMonotone(before: Groups, after: Groups, source: Groups)
    requires AllPresent(before, source) && forall name | name in before :: name in after && after[name] == before[name]
    ensures AllPresent(after, source)
  {
    forall n | n in source ensures Present(after, source[n]) {
      var name :| name in before && before[name].msp == source[n].msp;
      assert name in after;
    }
  }

  /* The outcome, value by value. The groups are kept even when an error ends the run. */

  datatype Outcome = Outcome(groups: Groups, error: Option<MspError>)

  // One source organization: reuse an MSP that is there, refuse a different one of the same ID or
  // a name that is taken, add it otherwise.
  ghost function ReuseOne(groups: Groups, name: Bytes, group: OrgGroup): (r: Outcome)
    requires UniqueMsps(groups)
    ensures UniqueMsps(r.groups)
  {
    if !Public(group) then Outcome(groups, Some(UnusableMsp))
    else if exists n :: n in groups && IdOf(groups[n]) == IdOf(group) then
      Outcome(groups, if Present(groups, group) then None else Some(ConflictingMsp))
    else if name in groups then Outcome(groups, Some(OrganizationNameTaken))
    else Outcome(groups[name := group], None)
  }

  ghost function ReuseNames(groups: Groups, source: Groups, names: seq<Bytes>): (r: Outcome)
    requires UniqueMsps(groups) && forall n | n in names :: n in source
    ensures UniqueMsps(r.groups)
    decreases names
  {
    if names == [] then Outcome(groups, None)
    else
      var first := ReuseOne(groups, names[0], source[names[0]]);
      if first.error.Some? then first else ReuseNames(first.groups, source, names[1..])
  }

  ghost function ReuseSource(groups: Groups, source: Groups): (r: Outcome)
    requires UniqueMsps(groups)
    ensures UniqueMsps(r.groups)
  {
    var names := KeyOrder(source.Keys);
    assert forall n | n in names :: n in Elements(names);
    ReuseNames(groups, source, names)
  }

  ghost function ReuseSources(groups: Groups, sources: map<Bytes, Groups>, channels: seq<Bytes>): (r: Outcome)
    requires UniqueMsps(groups) && forall c | c in channels :: c in sources
    ensures UniqueMsps(r.groups)
    decreases channels
  {
    if channels == [] then Outcome(groups, None)
    else
      var first := ReuseSource(groups, sources[channels[0]]);
      if first.error.Some? then first else ReuseSources(first.groups, sources, channels[1..])
  }

  // The whole run, channels and organizations in the order of their names.
  ghost function ReuseAll(groups: Groups, sources: map<Bytes, Groups>): (r: Outcome)
    requires UniqueMsps(groups)
    ensures UniqueMsps(r.groups)
  {
    var channels := KeyOrder(sources.Keys);
    assert forall c | c in channels :: c in Elements(channels);
    ReuseSources(groups, sources, channels)
  }

  /* When a run succeeds, exactly. */

  ghost predicate AllPublic(groups: Groups) {
    forall n | n in groups :: Public(groups[n])
  }

  datatype Entry = Entry(name: Bytes, group: OrgGroup)

  function NameEntries(source: Groups, names: seq<Bytes>): seq<Entry>
    requires forall n | n in names :: n in source
  {
    if names == [] then [] else [Entry(names[0], source[names[0]])] + NameEntries(source, names[1..])
  }

  ghost function SourceEntries(sources: map<Bytes, Groups>, channels: seq<Bytes>): seq<Entry>
    requires forall c | c in channels :: c in sources
  {
    if channels == [] then []
    else
      var source := sources[channels[0]];
      var names := KeyOrder(source.Keys);
      assert forall n | n in names :: n in Elements(names);
      NameEntries(source, names) + SourceEntries(sources, channels[1..])
  }

  // The source organizations in the order in which a run meets them.
  ghost function Entries(sources: map<Bytes, Groups>): seq<Entry> {
    var channels := KeyOrder(sources.Keys);
    assert forall c | c in channels :: c in Elements(channels);
    SourceEntries(sources, channels)
  }

  ghost function ReuseEntries(groups: Groups, entries: seq<Entry>): (r: Outcome)
    requires UniqueMsps(groups)
    ensures UniqueMsps(r.groups)
    decreases entries
  {
    if entries == [] then Outcome(groups, None)
    else
      var first := ReuseOne(groups, entries[0].name, entries[0].group);
      if first.error.Some? then first else ReuseEntries(first.groups, entries[1..])
  }

  lemma {:induction false} ReuseAppend(groups: Groups, a: seq<Entry>, b: seq<Entry>)
    requires UniqueMsps(groups)
    ensures var first := ReuseEntries(groups, a);
            ReuseEntries(groups, a + b) == if first.error.Some? then first else ReuseEntries(first.groups, b)
    decreases a
  {
    hide ReuseOne, UniqueMsps;
    if a == [] {
      assert a + b == b;
    } else {
      assert (a + b)[1..] == a[1..] + b;
      var first := ReuseOne(groups, a[0].name, a[0].group);
      if first.error.None? { ReuseAppend(first.groups, a[1..], b); }
    }
  }

  lemma {:induction false} ReuseNamesEntries(groups: Groups, source: Groups, names: seq<Bytes>)
    requires UniqueMsps(groups) && forall n | n in names :: n in source
    ensures ReuseNames(groups, source, names) == ReuseEntries(groups, NameEntries(source, names))
    decreases names
  {
    hide ReuseOne, UniqueMsps;
    if names != [] {
      assert NameEntries(source, names)[1..] == NameEntries(source, names[1..]);
      var first := ReuseOne(groups, names[0], source[names[0]]);
      if first.error.None? { ReuseNamesEntries(first.groups, source, names[1..]); }
    }
  }

  lemma {:induction false} ReuseSourcesEntries(groups: Groups, sources: map<Bytes, Groups>, channels: seq<Bytes>)
    requires UniqueMsps(groups) && forall c | c in channels :: c in sources
    ensures ReuseSources(groups, sources, channels) == ReuseEntries(groups, SourceEntries(sources, channels))
    decreases channels
  {
    hide ReuseEntries, ReuseNames, UniqueMsps;
    if channels == [] {
      assert ReuseEntries(groups, []) == Outcome(groups, None) by { NoEntries(groups); }
    } else {
      var source := sources[channels[0]];
      var names := KeyOrder(source.Keys);
      assert forall n | n in names :: n in Elements(names);
      ReuseNamesEntries(groups, source, names);
      ReuseAppend(groups, NameEntries(source, names), SourceEntries(sources, channels[1..]));
      var first := ReuseSource(groups, source);
      if first.error.None? { ReuseSourcesEntries(first.groups, sources, channels[1..]); }
    }
  }

  lemma NoEntries(groups: Groups)
    requires UniqueMsps(groups)
    ensures ReuseEntries(groups, []) == Outcome(groups, None)
  {
  }

  ghost predicate HasId(groups: Groups, id: string)
    requires AllPublic(groups)
  {
    exists n :: n in groups && IdOf(groups[n]) == id
  }

  // The entry brings an MSP ID that the target and the entries before it do not have.
  ghost predicate Fresh(groups: Groups, entries: seq<Entry>, i: nat)
    requires i < |entries| && AllPublic(groups) && AllUsable(entries)
  {
    && !HasId(groups, IdOf(entries[i].group))
    && (forall j | 0 <= j < i :: IdOf(entries[j].group) != IdOf(entries[i].group))
  }

  ghost predicate AllUsable(entries: seq<Entry>) {
    forall e | e in entries :: Public(e.group)
  }

  // An ID has one definition.
  ghost predicate AgreeWith(groups: Groups, entries: seq<Entry>)
    requires AllPublic(groups) && AllUsable(entries)
  {
    forall n, e | n in groups && e in entries && IdOf(groups[n]) == IdOf(e.group) :: groups[n].msp == e.group.msp
  }

  ghost predicate AgreeAmong(entries: seq<Entry>)
    requires AllUsable(entries)
  {
    forall d, e | d in entries && e in entries && IdOf(d.group) == IdOf(e.group) :: d.group.msp == e.group.msp
  }

  // A fresh MSP comes under a name that neither the target nor an earlier fresh MSP has.
  ghost predicate NamesFree(groups: Groups, entries: seq<Entry>)
    requires AllPublic(groups) && AllUsable(entries)
  {
    && (forall i | 0 <= i < |entries| && Fresh(groups, entries, i) :: entries[i].name !in groups)
    && (forall i, j | 0 <= j < i < |entries| && Fresh(groups, entries, i) && Fresh(groups, entries, j) ::
          entries[j].name != entries[i].name)
  }

  ghost predicate Reusable(groups: Groups, entries: seq<Entry>)
    requires AllPublic(groups)
  {
    AllUsable(entries) && AgreeWith(groups, entries) && AgreeAmong(entries) && NamesFree(groups, entries)
  }

  // The first entry is there already.
  lemma ReusedFirst(groups: Groups, entries: seq<Entry>, n: Bytes)
    requires UniqueMsps(groups) && entries != [] && AllUsable(entries)
    requires n in groups && groups[n].msp == entries[0].group.msp
    ensures AllUsable(entries[1..]) && (Reusable(groups, entries) <==> Reusable(groups, entries[1..]))
  {
    hide Public;
    var e, rest := entries[0], entries[1..];
    assert IdOf(groups[n]) == IdOf(e.group);
    assert forall i | 0 <= i < |rest| :: rest[i] == entries[i + 1];
    assert forall d :: d in entries <==> d == e || d in rest;
    assert !Fresh(groups, entries, 0);
    forall i | 0 <= i < |rest| ensures Fresh(groups, rest, i) <==> Fresh(groups, entries, i + 1) {
      ShiftFresh(groups, groups, entries, i);
    }
    ShiftNames(groups, entries);
    if AgreeWith(groups, rest) {
      forall d | d in rest && IdOf(d.group) == IdOf(e.group) ensures d.group.msp == e.group.msp {
        assert groups[n].msp == d.group.msp;
      }
    }
  }

  lemma ShiftFresh(groups: Groups, after: Groups, entries: seq<Entry>, i: nat)
    requires AllPublic(groups) && AllPublic(after) && AllUsable(entries) && i + 1 < |entries|
    requires forall id :: HasId(after, id) <==> HasId(groups, id) || id == IdOf(entries[0].group)
    ensures AllUsable(entries[1..])
    ensures Fresh(after, entries[1..], i) <==> Fresh(groups, entries, i + 1)
  {
    hide Public, MspOf, IdOf;
    var rest, id := entries[1..], IdOf(entries[i + 1].group);
    assert forall k | 0 <= k < |rest| :: rest[k] == entries[k + 1];
    assert forall d | d in rest :: d in entries;
    assert HasId(after, id) <==> HasId(groups, id) || id == IdOf(entries[0].group);
    assert forall j | 1 <= j < i + 1 :: entries[j] == rest[j - 1];
  }

  lemma ShiftNames(groups: Groups, entries: seq<Entry>)
    requires AllPublic(groups) && entries != [] && AllUsable(entries) && AllUsable(entries[1..])
    requires !Fresh(groups, entries, 0)
    requires forall i | 0 <= i < |entries| - 1 :: Fresh(groups, entries[1..], i) <==> Fresh(groups, entries, i + 1)
    ensures NamesFree(groups, entries) <==> NamesFree(groups, entries[1..])
  {
    hide Fresh, Public;
    var rest := entries[1..];
    assert forall i | 0 <= i < |rest| :: rest[i] == entries[i + 1];
    assert forall i | 1 <= i < |entries| :: entries[i] == rest[i - 1]
                                           && (Fresh(groups, rest, i - 1) <==> Fresh(groups, entries, i));
  }

  // The first entry is added.
  lemma AddedFirst(groups: Groups, entries: seq<Entry>)
    requires UniqueMsps(groups) && entries != [] && AllUsable(entries) && entries[0].name !in groups
    requires forall n | n in groups :: IdOf(groups[n]) != IdOf(entries[0].group)
    ensures AllUsable(entries[1..]) && AllPublic(groups[entries[0].name := entries[0].group])
    ensures Reusable(groups, entries) <==> Reusable(groups[entries[0].name := entries[0].group], entries[1..])
  {
    hide Public, MspOf, IdOf;
    var e, rest := entries[0], entries[1..];
    var after := groups[e.name := e.group];
    assert after[e.name] == e.group;
    assert forall i | 0 <= i < |rest| :: rest[i] == entries[i + 1];
    assert forall d :: d in entries <==> d == e || d in rest;
    forall id ensures HasId(after, id) <==> HasId(groups, id) || id == IdOf(e.group) {
      if n :| n in groups && IdOf(groups[n]) == id { assert n in after && after[n] == groups[n]; }
    }
    forall i | 0 <= i < |rest| ensures Fresh(after, rest, i) <==> Fresh(groups, entries, i + 1) {
      ShiftFresh(groups, after, entries, i);
    }
    AddedNames(groups, after, entries);
    AddedAgree(groups, entries);
  }

  lemma AddedAgree(groups: Groups, entries: seq<Entry>)
    requires AllPublic(groups) && entries != [] && AllUsable(entries) && AllUsable(entries[1..])
    requires entries[0].name !in groups
    requires forall n | n in groups :: IdOf(groups[n]) != IdOf(entries[0].group)
    requires AllPublic(groups[entries[0].name := entries[0].group])
    ensures AgreeWith(groups, entries) && AgreeAmong(entries)
            <==> AgreeWith(groups[entries[0].name := entries[0].group], entries[1..]) && AgreeAmong(entries[1..])
  {
    hide Public, MspOf, IdOf;
    var e, rest := entries[0], entries[1..];
    var after := groups[e.name := e.group];
    assert forall d :: d in entries <==> d == e || d in rest;
    assert forall n | n in groups :: after[n] == groups[n];
    assert after[e.name] == e.group;
  }

  lemma AddedNames(groups: Groups, after: Groups, entries: seq<Entry>)
    requires AllPublic(groups) && AllPublic(after) && entries != [] && AllUsable(entries) && AllUsable(entries[1..])
    requires entries[0].name !in groups && after.Keys == groups.Keys + {entries[0].name}
    requires Fresh(groups, entries, 0)
    requires forall i | 0 <= i < |entries| - 1 :: Fresh(after, entries[1..], i) <==> Fresh(groups, entries, i + 1)
    ensures NamesFree(groups, entries) <==> NamesFree(after, entries[1..])
  {
    hide Fresh, Public;
    var rest := entries[1..];
    assert forall i | 0 <= i < |rest| :: rest[i] == entries[i + 1];
    assert forall i | 1 <= i < |entries| :: entries[i] == rest[i - 1]
                                           && (Fresh(after, rest, i - 1) <==> Fresh(groups, entries, i));
  }

  // What stays to be shown after the first entry.
  lemma ReusableCons(groups: Groups, entries: seq<Entry>)
    requires UniqueMsps(groups) && entries != []
    ensures var first := ReuseOne(groups, entries[0].name, entries[0].group);
            Reusable(groups, entries) <==> first.error.None? && Reusable(first.groups, entries[1..])
  {
    hide MspOf, AgreeAmong;
    var e := entries[0];
    assert forall d :: d in entries <==> d == e || d in entries[1..];
    assert e in entries;
    if !AllUsable(entries) {
    } else if n :| n in groups && IdOf(groups[n]) == IdOf(e.group) {
      if Present(groups, e.group) {
        var name :| name in groups && groups[name].msp == e.group.msp;
        ReusedFirst(groups, entries, name);
      } else {
        assert groups[n].msp != e.group.msp;
      }
    } else if e.name in groups {
      assert Fresh(groups, entries, 0);
    } else {
      AddedFirst(groups, entries);
    }
  }

  // A run succeeds if and only if its inputs are reusable.
  lemma {:induction false} ReuseExact(groups: Groups, entries: seq<Entry>)
    requires UniqueMsps(groups)
    ensures ReuseEntries(groups, entries).error.None? <==> Reusable(groups, entries)
    decreases entries
  {
    hide ReuseOne, Fresh;
    if entries != [] {
      ReusableCons(groups, entries);
      var first := ReuseOne(groups, entries[0].name, entries[0].group);
      if first.error.None? { ReuseExact(first.groups, entries[1..]); }
    }
  }

  lemma ReuseAllExact(groups: Groups, sources: map<Bytes, Groups>)
    requires UniqueMsps(groups)
    ensures ReuseAll(groups, sources).error.None? <==> Reusable(groups, Entries(sources))
  {
    hide ReuseEntries, ReuseSources, Reusable;
    var channels := KeyOrder(sources.Keys);
    assert forall c | c in channels :: c in Elements(channels);
    ReuseSourcesEntries(groups, sources, channels);
    ReuseExact(groups, Entries(sources));
  }

  // A condition that does not mention the order: one definition for an ID and one ID for a name.
  ghost predicate Compatible(groups: Groups, sources: map<Bytes, Groups>) {
    && UniqueMsps(groups)
    && (forall c | c in sources :: Agree(groups, sources[c]))
    && (forall c, d | c in sources && d in sources :: Agree(sources[c], sources[d]))
  }

  ghost predicate Agree(a: Groups, b: Groups) {
    AllPublic(a) && AllPublic(b)
    && (forall x, y | x in a && y in b && IdOf(a[x]) == IdOf(b[y]) :: a[x].msp == b[y].msp)
    && (forall n | n in a && n in b :: IdOf(a[n]) == IdOf(b[n]))
  }

  ghost predicate FromSources(sources: map<Bytes, Groups>, e: Entry) {
    exists c :: c in sources && e.name in sources[c] && sources[c][e.name] == e.group
  }

  lemma {:induction false} NameEntriesFrom(sources: map<Bytes, Groups>, channel: Bytes, names: seq<Bytes>)
    requires channel in sources && forall n | n in names :: n in sources[channel]
    ensures forall e | e in NameEntries(sources[channel], names) :: FromSources(sources, e)
  {
    if names != [] {
      NameEntriesFrom(sources, channel, names[1..]);
      assert FromSources(sources, Entry(names[0], sources[channel][names[0]]));
    }
  }

  lemma {:induction false} SourceEntriesFrom(sources: map<Bytes, Groups>, channels: seq<Bytes>)
    requires forall c | c in channels :: c in sources
    ensures forall e | e in SourceEntries(sources, channels) :: FromSources(sources, e)
  {
    hide FromSources;
    if channels != [] {
      var names := KeyOrder(sources[channels[0]].Keys);
      assert forall n | n in names :: n in Elements(names);
      NameEntriesFrom(sources, channels[0], names);
      SourceEntriesFrom(sources, channels[1..]);
    }
  }

  lemma CompatibleReusable(groups: Groups, sources: map<Bytes, Groups>, entries: seq<Entry>)
    requires Compatible(groups, sources) && forall e | e in entries :: FromSources(sources, e)
    ensures Reusable(groups, entries)
  {
    hide Public, MspOf, IdOf;
    forall e | e in entries ensures Public(e.group) {
      var c :| c in sources && e.name in sources[c] && sources[c][e.name] == e.group;
      assert Agree(sources[c], sources[c]);
    }
    forall n, e | n in groups && e in entries
      ensures IdOf(groups[n]) == IdOf(e.group) ==> groups[n].msp == e.group.msp
      ensures n == e.name ==> IdOf(groups[n]) == IdOf(e.group)
    {
      var c :| c in sources && e.name in sources[c] && sources[c][e.name] == e.group;
      assert Agree(groups, sources[c]);
    }
    forall d, e | d in entries && e in entries
      ensures IdOf(d.group) == IdOf(e.group) ==> d.group.msp == e.group.msp
      ensures d.name == e.name ==> IdOf(d.group) == IdOf(e.group)
    {
      var c :| c in sources && e.name in sources[c] && sources[c][e.name] == e.group;
      var b :| b in sources && d.name in sources[b] && sources[b][d.name] == d.group;
      assert Agree(sources[b], sources[c]);
    }
    assert forall i | 0 <= i < |entries| :: entries[i] in entries;
  }

  // Compatible inputs are never refused.
  lemma CompatibleSucceeds(groups: Groups, sources: map<Bytes, Groups>)
    requires Compatible(groups, sources)
    ensures ReuseAll(groups, sources).error.None?
  {
    hide Compatible, Reusable;
    var channels := KeyOrder(sources.Keys);
    assert forall c | c in channels :: c in Elements(channels);
    SourceEntriesFrom(sources, channels);
    CompatibleUnique(groups, sources);
    CompatibleReusable(groups, sources, Entries(sources));
    ReuseAllExact(groups, sources);
  }

  lemma CompatibleUnique(groups: Groups, sources: map<Bytes, Groups>)
    requires Compatible(groups, sources)
    ensures UniqueMsps(groups)
  {
  }

  class ChannelConfig {
    var groups: Groups

    // The MSPs of the target itself.
    method IndexTarget() returns (err: Option<MspError>, byID: map<string, MspDefinition>, byName: map<Bytes, string>)
      ensures err.None? ==> Indexed(groups, byID, byName)
      ensures err.None? <==> UniqueMsps(groups)
    {
      byID, byName := map[], map[];
      var rest := groups.Keys;
      while rest != {}
        invariant rest <= groups.Keys
        invariant Indexed(groups - rest, byID, byName)
        decreases |rest|
      {
        var name :| name in rest;
        ghost var done := groups - rest;
        err, byID, byName := IndexGroup(done, name, groups[name], byID, byName);
        if err.Some? { return; }
        LessOne(groups, rest, name);
        rest := rest - {name};
      }
      LessNone(groups);
      err := None;
    }

    method IndexGroup(ghost done: Groups, name: Bytes, group: OrgGroup, byID: map<string, MspDefinition>,
                      byName: map<Bytes, string>)
      returns (err: Option<MspError>, newByID: map<string, MspDefinition>, newByName: map<Bytes, string>)
      requires Indexed(done, byID, byName) && name !in done && name in groups && groups[name] == group
      requires forall n | n in done :: n in groups && done[n] == groups[n]
      ensures err.None? ==> Indexed(done[name := group], newByID, newByName)
      ensures err.Some? ==> !UniqueMsps(groups)
    {
      newByID, newByName := byID, byName;
      if !Public(group) { return Some(UnusableMsp), byID, byName; }
      if IdOf(group) in byID {
        DuplicateFound(groups, done, byID, byName, name);
        return Some(DuplicateTargetMsp), byID, byName;
      }
      IndexedAdd(done, byID, byName, name, group);
      newByID, newByName := byID[IdOf(group) := MspOf(group)], byName[name := IdOf(group)];
      err := None;
    }

    // The loop body for one source organization.
    method ReuseGroup(name: Bytes, group: OrgGroup, byID: map<string, MspDefinition>, byName: map<Bytes, string>)
      returns (err: Option<MspError>, newByID: map<string, MspDefinition>, newByName: map<Bytes, string>)
      requires Indexed(groups, byID, byName)
      modifies this
      ensures Indexed(groups, newByID, newByName)
      ensures Outcome(groups, err) == ReuseOne(old(groups), name, group)
      ensures Grew(old(groups), groups, name, group)
      ensures err.None? ==> Present(groups, group)
      ensures old(Present(groups, group)) ==> err.None? && groups == old(groups)
    {
      newByID, newByName := byID, byName;
      if !Public(group) { return Some(UnusableMsp), byID, byName; }
      IndexedPresent(groups, byID, byName, group);
      if IdOf(group) in byID {
        return if byID[IdOf(group)] != MspOf(group) then Some(ConflictingMsp) else None, byID, byName;
      }
      if name in byName { return Some(OrganizationNameTaken), byID, byName; }
      IndexedAdd(groups, byID, byName, name, group);
      groups := groups[name := group];
      newByID, newByName := byID[IdOf(group) := MspOf(group)], byName[name := IdOf(group)];
      assert name in groups;
      err := None;
    }

    method ReuseChannel(channel: Bytes, sources: map<Bytes, Groups>, byID: map<string, MspDefinition>,
                        byName: map<Bytes, string>)
      returns (err: Option<MspError>, newByID: map<string, MspDefinition>, newByName: map<Bytes, string>)
      requires Indexed(groups, byID, byName) && channel in sources
      modifies this
      ensures Indexed(groups, newByID, newByName) && Extends(old(groups), groups, sources)
      ensures Outcome(groups, err) == ReuseSource(old(groups), sources[channel])
      ensures err.None? ==> AllPresent(groups, sources[channel])
      ensures old(AllPresent(groups, sources[channel])) ==> err.None? && groups == old(groups)
    {
      hide UniqueMsps, Present, Extends, ReuseOne, Grew, PresentPrefix;
      PrefixNone(groups, sources[channel]);
      ExtendsItself(groups, sources);
      var source := sources[channel];
      newByID, newByName := byID, byName;
      var names := SortedKeys(source.Keys);
      forall n | n in names ensures n in source { assert n in Elements(names); }
      assert names[0..] == names;
      for i := 0 to |names|
        invariant Indexed(groups, newByID, newByName) && Extends(old(groups), groups, sources)
        invariant forall n | n in names :: n in source
        invariant ReuseNames(old(groups), source, names) == ReuseNames(groups, source, names[i..])
        invariant PresentPrefix(groups, source, names, i)
        invariant old(AllPresent(groups, source)) ==> groups == old(groups)
      {
        assert names[i..][0] == names[i] && names[i..][1..] == names[i + 1..];
        ghost var before := groups;
        err, newByID, newByName := ReuseGroup(names[i], source[names[i]], newByID, newByName);
        ExtendsGrew(old(groups), before, groups, sources, channel, names[i]);
        if err.Some? { return; }
        PresentGrew(before, groups, names[i], source[names[i]], source, names, i);
      }
      PresentWhole(groups, source, names);
      err := None;
    }

    // The outcome is that of ReuseAll on a target without duplicates, and an error otherwise.
    // Organizations that were there are unchanged, whatever the outcome. On success MSP IDs are
    // unique and every source MSP is there. If all were there already, nothing changes.
    method ReuseMsps(sources: map<Bytes, Groups>) returns (err: Option<MspError>)
      modifies this
      ensures if old(UniqueMsps(groups)) then Outcome(groups, err) == ReuseAll(old(groups), sources)
              else err.Some? && groups == old(groups)
      ensures Extends(old(groups), groups, sources)
      ensures err.None? ==> UniqueMsps(groups) && EverythingPresent(groups, sources)
      ensures old(UniqueMsps(groups) && EverythingPresent(groups, sources)) ==> err.None? && groups == old(groups)
    {
      hide UniqueMsps, AllPresent, Extends, ReuseSource;
      ExtendsItself(groups, sources);
      var byID, byName;
      err, byID, byName := IndexTarget();
      if err.Some? { return; }
      var channels := SortedKeys(sources.Keys);
      forall c | c in channels ensures c in sources { assert c in Elements(channels); }
      assert channels[0..] == channels;
      for i := 0 to |channels|
        invariant Indexed(groups, byID, byName) && Extends(old(groups), groups, sources)
        invariant forall c | c in channels :: c in sources
        invariant ReuseSources(old(groups), sources, channels) == ReuseSources(groups, sources, channels[i..])
        invariant ChannelsPresent(groups, sources, channels, i)
        invariant old(EverythingPresent(groups, sources)) ==> groups == old(groups)
      {
        assert channels[i..][0] == channels[i] && channels[i..][1..] == channels[i + 1..];
        ghost var before := groups;
        err, byID, byName := ReuseChannel(channels[i], sources, byID, byName);
        ExtendsTransitive(old(groups), before, groups, sources);
        if err.Some? { return; }
        ChannelsGrew(before, groups, sources, channels, i);
      }
      ChannelsWhole(groups, sources, channels);
      err := None;
    }
  }

  // A second run with the same sources succeeds and changes nothing.
  method ReuseTwice(target: ChannelConfig, sources: map<Bytes, Groups>)
    returns (first: Option<MspError>, second: Option<MspError>, ghost between: Groups)
    modifies target
    ensures first.None? ==> second.None? && target.groups == between
    ensures Extends(old(target.groups), between, sources)
  {
    first := target.ReuseMsps(sources);
    between := target.groups;
    second := target.ReuseMsps(sources);
  }
}
