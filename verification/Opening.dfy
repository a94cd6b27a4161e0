/** Opening a snapshot and walking its two streams, said of the files. */
module Opening {
  import opened Prelude
  import opened Snapshot
  import opened Stream
  import opened StreamTheorems
  import opened Acceptance
  import opened Mappings
  import opened Counts

  // The metadata announces these namespaces, in ascending order.
  ghost predicate Announces(metadata: Bytes, namespaces: seq<Namespace>) {
    && DecodeNamespaces(metadata) == Ok(namespaces)
    && forall i | 1 <= i < |namespaces| :: Precedes(namespaces[i - 1].name, namespaces[i].name)
  }

  lemma ReadExact(metadata: Bytes, namespaces: seq<Namespace>)
    ensures ReadNamespaces(metadata) == Ok(namespaces) <==> Announces(metadata, namespaces)
  {
    hide DecodeNamespaces, Precedes, Less;
    forall i | 1 <= i < |namespaces|
      ensures Less(namespaces[i - 1].name, namespaces[i].name) <==> Precedes(namespaces[i - 1].name, namespaces[i].name)
    {
      LessExact(namespaces[i - 1].name, namespaces[i].name);
    }
  }

  // Every name is that of a collection of some namespace.
  ghost predicate AllCollections(namespaces: seq<Namespace>) {
    forall ns | ns in namespaces :: exists source :: Named(ns.name, source, true)
  }

  lemma SplitExact(namespaces: seq<Namespace>)
    ensures AllSplit(namespaces) <==> AllCollections(namespaces)
  {
    hide SplitHashNamespace, Named;
    forall i | 0 <= i < |namespaces|
      ensures SplitHashNamespace(namespaces[i].name).Ok? <==> exists source :: Named(namespaces[i].name, source, true)
    {
      var name := namespaces[i].name;
      if SplitHashNamespace(name).Ok? { SourceOfExact(name, SplitHashNamespace(name).value.namespace, true); }
      forall source | Named(name, source, true) ensures SplitHashNamespace(name).Ok? {
        SourceOfExact(name, source, true);
      }
    }
    forall ns | ns in namespaces ensures exists i :: 0 <= i < |namespaces| && namespaces[i] == ns {}
  }

  // A snapshot opens exactly when its metadata announces ordered namespaces, and those of private
  // hashes, when there are any, are collections.
  lemma OpenExact(files: SnapshotFiles, s: SnapshotStream)
    ensures OpenStream(files) == Ok(s) <==>
            && s.files == files && Announces(files.publicMetadata, s.publicNamespaces)
            && (files.hashes.None? ==> s.hashNamespaces == [])
            && (files.hashes.Some? ==> Announces(files.hashes.value.metadata, s.hashNamespaces)
                                       && AllCollections(s.hashNamespaces))
  {
    hide ReadNamespaces, Announces, AllSplit, AllCollections;
    ReadExact(files.publicMetadata, s.publicNamespaces);
    if files.hashes.Some? {
      ReadExact(files.hashes.value.metadata, s.hashNamespaces);
      SplitExact(s.hashNamespaces);
    }
  }

  // The public walk accepts what the public files may contain, for the snapshot's own database and
  // checkpoint, and yields it.
  lemma PublicWalkExact(s: SnapshotStream)
    ensures var f, source := s.files, Source(false, s.files.couchDB, s.files.lastBlock);
            s.Walk(false).error.None? <==>
            exists snapshot :: Contains(f.publicMetadata, f.publicData, snapshot) && WellFormed(source, snapshot)
    ensures var f, source := s.files, Source(false, s.files.couchDB, s.files.lastBlock);
            forall snapshot | Contains(f.publicMetadata, f.publicData, snapshot) && WellFormed(source, snapshot) ::
              s.Walk(false) == Outcome(AllRecords(snapshot), None)
  {
    hide WalkFile, Contains, WellFormed;
    var f := s.files;
    WalkExact(Source(false, f.couchDB, f.lastBlock), f.publicMetadata, f.publicData);
  }

  // The walk over private hashes likewise; without hash files it yields nothing.
  lemma HashWalkExact(s: SnapshotStream)
    ensures s.files.hashes.None? ==> s.Walk(true) == Outcome([], None)
    ensures s.files.hashes.Some? ==>
              var f, source := s.files.hashes.value, Source(true, s.files.couchDB, s.files.lastBlock);
              s.Walk(true).error.None? <==>
              exists snapshot :: Contains(f.metadata, f.data, snapshot) && WellFormed(source, snapshot)
    ensures s.files.hashes.Some? ==>
              var f, source := s.files.hashes.value, Source(true, s.files.couchDB, s.files.lastBlock);
              forall snapshot | Contains(f.metadata, f.data, snapshot) && WellFormed(source, snapshot) ::
                s.Walk(true) == Outcome(AllRecords(snapshot), None)
  {
    hide WalkFile, Contains, WellFormed;
    var f := s.files;
    if f.hashes.Some? {
      WalkExact(Source(true, f.couchDB, f.lastBlock), f.hashes.value.metadata, f.hashes.value.data);
    }
  }
}
