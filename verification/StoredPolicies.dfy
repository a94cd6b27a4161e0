/** The policies that an import stores: from the calls of `add` to the rows of the metadata table. */
module StoredPolicies {
  import opened Prelude
  import opened SignaturePolicy
  import opened CanonicalPolicy
  import opened ResolvePolicy
  import opened Mappings
  import opened Counts
  import opened Routing
  import opened RoutedRows
  import opened Batch
  import I = Import

  // The bytes of each stored policy.
  function Encoded(encode: Envelope -> Bytes, stored: map<Bytes, Envelope>): map<Bytes, Bytes> {
    map n | n in stored :: encode(stored[n])
  }

  // The stored policies survive encoding.
  predicate DecodesBack(encode: Envelope -> Bytes, decode: Bytes -> Envelope, stored: map<Bytes, Envelope>) {
    forall n | n in stored :: decode(encode(stored[n])) == stored[n]
  }

  // The calls of `add`, in the order given.
  method PreparePolicies(w: Wire, verifies: (Bytes, Envelope) -> bool, calls: seq<Call>)
    returns (r: Result<map<Bytes, Envelope>, PolicyError>)
    requires Faithful(w)
    ensures r.Ok? <==> AllAcceptable(w, verifies, calls) && Consistent(w, calls)
    ensures r.Ok? ==> Records(w, calls, r.value)
    ensures r == AddAll(w, verifies, calls)
  {
    hide Added, Faithful, AllAcceptable, Consistent, Records;
    AddAllMeaning(w, verifies, calls);
    var table := new PolicyTable();
    for i := 0 to |calls|
      invariant AddAll(w, verifies, calls[..i]) == Ok(table.result)
    {
      AddNext(w, verifies, calls, i);
      var err := table.Add(w, verifies, calls[i]);
      if err.Some? {
        AddStops(w, verifies, calls, i + 1);
        return Err(err.value);
      }
    }
    assert calls[..|calls|] == calls;
    return Ok(table.result);
  }

  lemma AddNext(w: Wire, verifies: (Bytes, Envelope) -> bool, calls: seq<Call>, i: nat)
    requires Faithful(w) && i < |calls| && AddAll(w, verifies, calls[..i]).Ok?
    ensures AddAll(w, verifies, calls[..i + 1]) == Added(w, verifies, AddAll(w, verifies, calls[..i]).value, calls[i])
  {
    hide Added, Faithful;
    assert calls[..i + 1][..i] == calls[..i];
  }

  // The first error is the outcome.
  lemma {:induction false} AddStops(w: Wire, verifies: (Bytes, Envelope) -> bool, calls: seq<Call>, i: nat)
    requires Faithful(w) && i <= |calls| && AddAll(w, verifies, calls[..i]).Err?
    ensures AddAll(w, verifies, calls) == AddAll(w, verifies, calls[..i])
    decreases |calls|
  {
    hide Added, Faithful;
    if i == |calls| {
      assert calls[..i] == calls;
    } else {
      var before := calls[..|calls| - 1];
      assert before[..i] == calls[..i];
      AddStops(w, verifies, before, i);
    }
  }

  // The row stored for a target accepts exactly what each source policy of that target accepts.
  lemma ImportedPolicySound(w: Wire, verifies: (Bytes, Envelope) -> bool, calls: seq<Call>, call: Call,
                            encode: Envelope -> Bytes, decode: Bytes -> Envelope, before: Tables, after: Tables,
                            targets: set<Bytes>, routed: seq<Routed>, envelope: Bytes, signers: seq<Identity>)
    requires Faithful(w) && AllGenuine(signers) && AddAll(w, verifies, calls).Ok?
    requires DecodesBack(encode, decode, AddAll(w, verifies, calls).value)
    requires I.Imported(before, after, targets, routed, Encoded(encode, AddAll(w, verifies, calls).value), envelope)
    requires call in calls && call.namespace in targets
    ensures I.META in after && call.namespace in after[I.META]
    ensures var e := decode(after[I.META][call.namespace].value);
            InRange(e.rule, |e.identities|) && Accepts(e, signers) == SourceAccepts(call, signers)
  {
    hide AddAll, Faithful, AllGenuine, Accepts, SourceAccepts, InRange, I.HoldsRouted, I.Untouched, I.RowsKept,
         NoCollision;
    StoredPolicySound(w, verifies, calls, call, signers);
  }

  datatype MigrationError = PolicyFailed(policy: PolicyError) | ImportFailed(error: I.ImportError)

  // The import with the policies it prepares: nothing is stored unless every policy resolves, and
  // what is stored for a target is the policy its sources resolve to.
  method ImportWithPolicies(store: I.Store, w: Wire, verifies: (Bytes, Envelope) -> bool, calls: seq<Call>,
                            encode: Envelope -> Bytes, mappings: seq<Mapping>, snapshots: map<Bytes, SnapshotStream>,
                            envelope: Bytes, same: (Bytes, Bytes) -> bool)
    returns (r: Result<I.Summary, MigrationError>, routed: seq<Routed>)
    requires Faithful(w) && I.Checked(mappings, snapshots)
    modifies store
    ensures r.Err? ==> store.committed == old(store.committed)
    ensures r.Ok? <==>
              && AllAcceptable(w, verifies, calls) && Consistent(w, calls) && AddAll(w, verifies, calls).Ok?
              && exists all :: I.Importable(old(store.committed), mappings, snapshots, all,
                                            Encoded(encode, AddAll(w, verifies, calls).value), envelope, same)
    ensures r.Ok? ==>
              && Records(w, calls, AddAll(w, verifies, calls).value)
              && I.Imported(old(store.committed), store.committed, r.value.counts.Keys, routed,
                            Encoded(encode, AddAll(w, verifies, calls).value), envelope)
              && HoldsRecords(store.committed, r.value.counts.Keys, mappings, snapshots)
  {
    hide Faithful, AddAll, AllAcceptable, Consistent, Records, I.Importable, I.Imported, I.Checked, I.RoutedBy, Encoded,
         HoldsRecords;
    var policies := PreparePolicies(w, verifies, calls);
    if policies.Err? { return Err(PolicyFailed(policies.error)), []; }
    var imported;
    imported, routed := I.Run(store, mappings, snapshots, Encoded(encode, policies.value), envelope, same);
    r := if imported.Ok? then Ok(imported.value) else Err(ImportFailed(imported.error));
  }
}
