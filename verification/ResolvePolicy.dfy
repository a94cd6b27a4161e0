/** resolvePolicy and the `add` closure of preparePolicies: one stored policy for each target
    namespace, whichever source chaincodes and collections share it. */
module ResolvePolicy {
  import opened Prelude
  import opened SignaturePolicy
  import opened CanonicalPolicy
  import opened ImplicitMeta
  import opened PolicyOrder
  import opened ConversionExact

  /* Convert, with the identity lists of the subpolicies one after another. */

  datatype Converted = Converted(rules: seq<Rule>, identities: seq<Principal>)

  function Shift(rule: Rule, offset: int): Rule
    decreases rule, 0
  {
    match rule
    case SignedBy(i) => SignedBy(i + offset)
    case NOutOf(n, rules) => NOutOf(n, ShiftAll(rules, offset))
    case other => other
  }

  function ShiftAll(rules: seq<Rule>, offset: int): (shifted: seq<Rule>)
    ensures |shifted| == |rules| && forall i :: 0 <= i < |rules| ==> shifted[i] == Shift(rules[i], offset)
    decreases rules, 1
  {
    if rules == [] then [] else [Shift(rules[0], offset)] + ShiftAll(rules[1..], offset)
  }

  function Convert(policy: Policy): Envelope
    requires Convertible(policy)
    decreases policy, 0
  {
    match policy
    case Signature(e) => e
    case ImplicitMeta(threshold, subs) =>
      var merged := ConvertAll(subs);
      Envelope(0, NOutOf(threshold, merged.rules), merged.identities)
  }

  function ConvertAll(subs: seq<Policy>): Converted
    requires forall p | p in subs :: Convertible(p)
    decreases subs, 1
  {
    if subs == [] then Converted([], [])
    else
      var head, tail := Convert(subs[0]), ConvertAll(subs[1..]);
      Converted([head.rule] + ShiftAll(tail.rules, |head.identities|), head.identities + tail.identities)
  }

  // Identities before and after the ones a rule uses do not change what it compiles to.
  lemma {:induction false} CompileShift(rule: Rule, before: seq<Principal>, ids: seq<Principal>, after: seq<Principal>)
    requires InRange(rule, |ids|)
    ensures InRange(Shift(rule, |before|), |before + ids + after|)
    ensures Compile(Shift(rule, |before|), before + ids + after) == Compile(rule, ids)
  {
    if rule.NOutOf? {
      var shifted := ShiftAll(rule.rules, |before|);
      forall i | 0 <= i < |rule.rules|
        ensures InRange(shifted[i], |before + ids + after|)
        ensures Compile(shifted[i], before + ids + after) == Compile(rule.rules[i], ids)
      {
        CompileShift(rule.rules[i], before, ids, after);
      }
      assert CompileAll(shifted, before + ids + after) == CompileAll(rule.rules, ids);
    }
  }

  lemma {:induction false} ShiftZero(rule: Rule)
    ensures Shift(rule, 0) == rule
  {
    if rule.NOutOf? {
      var shifted := ShiftAll(rule.rules, 0);
      forall i | 0 <= i < |rule.rules| ensures shifted[i] == rule.rules[i] { ShiftZero(rule.rules[i]); }
      assert shifted == rule.rules;
    }
  }

  lemma {:induction false} ConvertIsConversion(policy: Policy)
    requires Convertible(policy)
    ensures IsConversion(policy, Convert(policy))
    decreases policy, 0
  {
    if policy.ImplicitMeta? { ConvertAllConverts(policy.subPolicies); }
  }

  lemma {:induction false} ConvertAllConverts(subs: seq<Policy>)
    requires forall p | p in subs :: Convertible(p)
    ensures var c := ConvertAll(subs);
            && AllInRange(c.rules, |c.identities|) && CompileAll(c.rules, c.identities) == ConvertedTrees(subs)
            && Elements(c.identities) == PrincipalsAll(subs)
    decreases subs, 1
  {
    if subs != [] {
      var head, tail, all := Convert(subs[0]), ConvertAll(subs[1..]), ConvertAll(subs);
      ConvertIsConversion(subs[0]);
      ConvertAllConverts(subs[1..]);
      CompileAppended(head.rule, head.identities, tail.identities);
      CompileAllShift(tail.rules, head.identities, tail.identities);
      var ids := head.identities + tail.identities;
      assert Elements(ids) == Elements(head.identities) + Elements(tail.identities);
      assert all.rules == [head.rule] + ShiftAll(tail.rules, |head.identities|) && all.identities == ids;
      assert all.rules[1..] == ShiftAll(tail.rules, |head.identities|);
      assert CompileAll(all.rules, ids) == [Compile(head.rule, ids)] + CompileAll(all.rules[1..], ids);
    }
  }

  lemma CompileAppended(rule: Rule, ids: seq<Principal>, after: seq<Principal>)
    requires InRange(rule, |ids|)
    ensures InRange(rule, |ids + after|) && Compile(rule, ids + after) == Compile(rule, ids)
  {
    assert [] + ids + after == ids + after;
    CompileShift(rule, [], ids, after);
    ShiftZero(rule);
  }

  lemma CompileAllShift(rules: seq<Rule>, before: seq<Principal>, ids: seq<Principal>)
    requires AllInRange(rules, |ids|)
    ensures AllInRange(ShiftAll(rules, |before|), |before + ids|)
    ensures CompileAll(ShiftAll(rules, |before|), before + ids) == CompileAll(rules, ids)
  {
    var shifted := ShiftAll(rules, |before|);
    assert before + ids + [] == before + ids;
    forall i | 0 <= i < |rules|
      ensures InRange(shifted[i], |before + ids|) && Compile(shifted[i], before + ids) == Compile(rules[i], ids)
    {
      CompileShift(rules[i], before, ids, []);
    }
  }

  // The way Convert merges identity lists does not matter.
  lemma MergeOrderIrrelevant(w: Wire, policy: Policy, converted: Envelope)
    requires Faithful(w) && IsConversion(policy, converted)
    ensures ResolveConverted(w, policy, converted) == ResolveConverted(w, policy, Convert(policy))
  {
    ConvertIsConversion(policy);
    SameTreeCanonical(w, converted, Convert(policy));
  }

  lemma SameTreeCanonical(w: Wire, a: Envelope, b: Envelope)
    requires Faithful(w) && InRange(a.rule, |a.identities|) && InRange(b.rule, |b.identities|)
    requires a.version == b.version && Elements(a.identities) == Elements(b.identities)
    requires Compile(a.rule, a.identities) == Compile(b.rule, b.identities)
    ensures Canonical(w, a) == Canonical(w, b)
  {
    assert NilPrincipal in a.identities <==> NilPrincipal in b.identities by {
      assert NilPrincipal in Elements(a.identities) <==> NilPrincipal in Elements(b.identities);
    }
    if NilPrincipal !in a.identities {
      SameDistinctPrincipals(w, a, b);
      ReindexSame(a.rule, b.rule, a.identities, b.identities, DistinctPrincipals(w, a.identities));
    }
  }

  lemma SameDistinctPrincipals(w: Wire, a: Envelope, b: Envelope)
    requires Faithful(w) && Elements(a.identities) == Elements(b.identities)
    requires NilPrincipal !in a.identities && NilPrincipal !in b.identities
    ensures DistinctPrincipals(w, a.identities) == DistinctPrincipals(w, b.identities)
    ensures Elements(DistinctPrincipals(w, a.identities)) == Elements(a.identities)
  {
    DistinctPrincipalsSorted(w, a.identities);
    DistinctPrincipalsSorted(w, b.identities);
    StrictlySortedUnique(w, DistinctPrincipals(w, a.identities), DistinctPrincipals(w, b.identities));
  }

  // Re-indexing looks at a rule only through the tree it compiles to.
  lemma {:induction false} ReindexSame(a: Rule, b: Rule, x: seq<Principal>, y: seq<Principal>, target: seq<Principal>)
    requires Elements(x) <= Elements(target) && Elements(y) <= Elements(target)
    requires InRange(a, |x|) && InRange(b, |y|) && Compile(a, x) == Compile(b, y)
    ensures Reindex(a, x, target) == Reindex(b, y, target)
    decreases a, 0
  {
    if a.NOutOf? {
      assert |CompileAll(a.rules, x)| == |CompileAll(b.rules, y)|;
      ReindexAllSame(a.rules, b.rules, x, y, target);
    }
  }

  lemma {:induction false} ReindexAllSame(a: seq<Rule>, b: seq<Rule>, x: seq<Principal>, y: seq<Principal>,
                                          target: seq<Principal>)
    requires Elements(x) <= Elements(target) && Elements(y) <= Elements(target)
    requires AllInRange(a, |x|) && AllInRange(b, |y|) && CompileAll(a, x) == CompileAll(b, y)
    ensures ReindexAll(a, x, target) == ReindexAll(b, y, target)
    decreases a, 1
  {
    assert |CompileAll(a, x)| == |CompileAll(b, y)|;
    if a != [] {
      assert CompileAll(a, x)[0] == CompileAll(b, y)[0];
      assert CompileAll(a[1..], x) == CompileAll(a, x)[1..] == CompileAll(b, y)[1..] == CompileAll(b[1..], y);
      ReindexSame(a[0], b[0], x, y, target);
      ReindexAllSame(a[1..], b[1..], x, y, target);
    }
  }

  /* resolvePolicy. */

  datatype ApplicationPolicy =
    | InlinePolicy(envelope: Option<Envelope>)
    | ChannelReference(name: string)
    | UnsetPolicy

  // One call of `add`: the target namespace, the source policy and the channel it belongs to.
  datatype Call = Call(namespace: Bytes, application: ApplicationPolicy, channel: map<string, Policy>)

  function Resolve(w: Wire, call: Call): (r: Result<Envelope, PolicyError>)
    requires Faithful(w)
    ensures r.Ok? ==> InRange(r.value.rule, |r.value.identities|)
  {
    match call.application
    case UnsetPolicy => Err(MissingPolicy)
    case InlinePolicy(None) => Err(MissingPolicy)
    case InlinePolicy(Some(e)) => CanonicalPreserves(w, e); Canonical(w, e)
    case ChannelReference(name) =>
      if name !in call.channel then Err(MissingReference)
      else if !Convertible(call.channel[name]) then Err(NotConvertible)
      else ResolveConverted(w, call.channel[name], Convert(call.channel[name]))
  }

  // What the source channel accepts.
  predicate SourceAccepts(call: Call, signers: seq<Identity>) {
    match call.application
    case InlinePolicy(Some(e)) => InRange(e.rule, |e.identities|) && Accepts(e, signers)
    case ChannelReference(name) =>
      name in call.channel && Convertible(call.channel[name]) && PolicyAccepts(call.channel[name], signers)
    case _ => false
  }

  lemma ResolveSound(w: Wire, call: Call, signers: seq<Identity>)
    requires Faithful(w) && AllGenuine(signers) && Resolve(w, call).Ok?
    ensures Accepts(Resolve(w, call).value, signers) == SourceAccepts(call, signers)
  {
    match call.application
    case InlinePolicy(Some(e)) => CanonicalPreserves(w, e);
    case ChannelReference(name) =>
      ConvertIsConversion(call.channel[name]);
      ConversionSound(w, call.channel[name], Convert(call.channel[name]), signers);
    case _ =>
  }

  // An inline policy resolves exactly when it is valid, to its canonical form: same version, same
  // principals in strict byte order, same tree.
  lemma ResolveInline(w: Wire, namespace: Bytes, e: Envelope, channel: map<string, Policy>)
    requires Faithful(w)
    ensures var r := Resolve(w, Call(namespace, InlinePolicy(Some(e)), channel));
            && (r.Ok? <==> NilPrincipal !in e.identities
                           && forall part | part in Parts(e.rule) :: SoundPart(part, |e.identities|))
            && (r.Ok? ==> && InRange(e.rule, |e.identities|) && r.value.version == e.version
                          && StrictlySorted(w.principalKey, r.value.identities)
                          && Elements(r.value.identities) == Elements(e.identities)
                          && Compile(r.value.rule, r.value.identities) == Compile(e.rule, e.identities))
  {
    hide Canonical, Compile;
    CanonicalPreserves(w, e);
    PartsExact(e.rule, |e.identities|);
  }

  // A reference resolves exactly when the channel has a policy of that name, it has a signature form,
  // and that form can be kept: to the closed form of the policy over its principals in byte order.
  lemma ResolveNamed(w: Wire, namespace: Bytes, name: string, channel: map<string, Policy>)
    requires Faithful(w)
    ensures var r := Resolve(w, Call(namespace, ChannelReference(name), channel));
            && (r.Ok? <==> && name in channel && Convertible(channel[name])
                           && NilPrincipal !in Principals(channel[name])
                           && TreeThresholds(ConvertedTree(channel[name]))
                           && Settles(KeyOf(w, Directory(w, channel[name])), channel[name]))
            && (r.Ok? ==> && r.value.identities == Directory(w, channel[name])
                          && Compile(r.value.rule, r.value.identities)
                             == Form(KeyOf(w, Directory(w, channel[name])), channel[name]))
  {
    hide ResolveConverted, Settles, Form, KeyOf, Compile, TreeThresholds;
    if name in channel && Convertible(channel[name]) {
      ConvertIsConversion(channel[name]);
      ConversionExact.ConversionExact(w, channel[name], Convert(channel[name]));
    }
  }

  // Nothing else resolves.
  lemma ResolveNothing(w: Wire, call: Call)
    requires Faithful(w) && (call.application == UnsetPolicy || call.application == InlinePolicy(None))
    ensures Resolve(w, call) == Err(MissingPolicy)
  {
  }

  /* add. */

  // `verifies` is the committer's own check of a namespace policy.
  function Added(w: Wire, verifies: (Bytes, Envelope) -> bool, stored: map<Bytes, Envelope>, call: Call)
    : Result<map<Bytes, Envelope>, PolicyError>
    requires Faithful(w)
  {
    var encoded :- Resolve(w, call);
    if call.namespace in stored && stored[call.namespace] != encoded then Err(ConflictingPolicies)
    else if !verifies(call.namespace, encoded) then Err(VerifierRejected)
    else Ok(stored[call.namespace := encoded])
  }

  function AddAll(w: Wire, verifies: (Bytes, Envelope) -> bool,
                  calls: seq<Call>): Result<map<Bytes, Envelope>, PolicyError>
    requires Faithful(w)
  {
    if calls == [] then Ok(map[])
    else
      var stored :- AddAll(w, verifies, calls[..|calls| - 1]);
      Added(w, verifies, stored, calls[|calls| - 1])
  }

  // The closure over `result`.
  class PolicyTable {
    var result: map<Bytes, Envelope>

    constructor ()
      ensures result == map[]
    {
      result := map[];
    }

    method Add(w: Wire, verifies: (Bytes, Envelope) -> bool, call: Call) returns (err: Option<PolicyError>)
      requires Faithful(w)
      modifies this
      ensures match Added(w, verifies, old(result), call)
              case Ok(stored) => err.None? && result == stored
              case Err(e) => err == Some(e) && result == old(result)
    {
      var encoded := Resolve(w, call);
      if encoded.Err? { return Some(encoded.error); }
      if call.namespace in result && result[call.namespace] != encoded.value { return Some(ConflictingPolicies); }
      if !verifies(call.namespace, encoded.value) { return Some(VerifierRejected); }
      result := result[call.namespace := encoded.value];
      return None;
    }
  }

  ghost predicate Acceptable(w: Wire, verifies: (Bytes, Envelope) -> bool, call: Call)
    requires Faithful(w)
  {
    Resolve(w, call).Ok? && verifies(call.namespace, Resolve(w, call).value)
  }

  // Sources that share a target namespace resolve to the same policy.
  ghost predicate Consistent(w: Wire, calls: seq<Call>)
    requires Faithful(w)
  {
    forall c, d | c in calls && d in calls && c.namespace == d.namespace :: Resolve(w, c) == Resolve(w, d)
  }

  ghost predicate AllAcceptable(w: Wire, verifies: (Bytes, Envelope) -> bool, calls: seq<Call>)
    requires Faithful(w)
  {
    forall c | c in calls :: Acceptable(w, verifies, c)
  }

  // The table holds, for the namespaces of the calls and no others, what their sources resolve to.
  ghost predicate Records(w: Wire, calls: seq<Call>, stored: map<Bytes, Envelope>)
    requires Faithful(w)
  {
    && (forall ns | ns in stored :: exists c :: c in calls && c.namespace == ns)
    && (forall c | c in calls :: c.namespace in stored && Resolve(w, c) == Ok(stored[c.namespace]))
  }

  lemma ConsistentAppend(w: Wire, calls: seq<Call>, last: Call)
    requires Faithful(w)
    ensures Consistent(w, calls + [last]) <==>
            Consistent(w, calls)
            && forall c | c in calls && c.namespace == last.namespace :: Resolve(w, c) == Resolve(w, last)
  {
    assert forall c :: c in calls + [last] <==> c in calls || c == last;
    assert last in calls + [last];
  }

  lemma RecordsAppend(w: Wire, calls: seq<Call>, last: Call, stored: map<Bytes, Envelope>)
    requires Faithful(w) && Records(w, calls, stored) && Resolve(w, last).Ok?
    ensures (last.namespace in stored ==> Resolve(w, last) == Ok(stored[last.namespace])) <==>
            forall c | c in calls && c.namespace == last.namespace :: Resolve(w, c) == Resolve(w, last)
    ensures (last.namespace in stored ==> Resolve(w, last) == Ok(stored[last.namespace])) ==>
            Records(w, calls + [last], stored[last.namespace := Resolve(w, last).value])
  {
    if last.namespace in stored {
      var c :| c in calls && c.namespace == last.namespace;
    }
    var after := stored[last.namespace := Resolve(w, last).value];
    forall ns | ns in after ensures exists c :: c in calls + [last] && c.namespace == ns {
      if ns == last.namespace {
        assert last in calls + [last];
      } else {
        var c :| c in calls && c.namespace == ns;
        assert c in calls + [last];
      }
    }
  }

  // All calls succeed exactly when each is acceptable and no two conflict; the result then maps
  // each namespace to the policy that all its sources resolve to.
  lemma {:induction false} AddAllMeaning(w: Wire, verifies: (Bytes, Envelope) -> bool, calls: seq<Call>)
    requires Faithful(w)
    ensures AddAll(w, verifies, calls).Ok? <==> AllAcceptable(w, verifies, calls) && Consistent(w, calls)
    ensures AddAll(w, verifies, calls).Ok? ==> Records(w, calls, AddAll(w, verifies, calls).value)
  {
    if calls != [] {
      var before, last := calls[..|calls| - 1], calls[|calls| - 1];
      assert calls == before + [last];
      AddAllMeaning(w, verifies, before);
      ConsistentAppend(w, before, last);
      assert AllAcceptable(w, verifies, calls) <==> AllAcceptable(w, verifies, before) && Acceptable(w, verifies, last);
      var stored := AddAll(w, verifies, before);
      if stored.Ok? && Resolve(w, last).Ok? {
        RecordsAppend(w, before, last, stored.value);
      }
    }
  }

  // Which calls were made decides the outcome.
  lemma SameCallsSucceed(w: Wire, verifies: (Bytes, Envelope) -> bool, a: seq<Call>, b: seq<Call>)
    requires Faithful(w) && (forall c :: c in a <==> c in b) && AddAll(w, verifies, a).Ok?
    ensures AddAll(w, verifies, b).Ok?
  {
    AddAllMeaning(w, verifies, a);
    AddAllMeaning(w, verifies, b);
    assert forall c | c in b :: c in a;
  }

  lemma SameCallsContained(w: Wire, verifies: (Bytes, Envelope) -> bool, a: seq<Call>, b: seq<Call>, ns: Bytes)
    requires Faithful(w) && (forall c :: c in a <==> c in b)
    requires AddAll(w, verifies, a).Ok? && AddAll(w, verifies, b).Ok? && ns in AddAll(w, verifies, a).value
    ensures ns in AddAll(w, verifies, b).value
    ensures AddAll(w, verifies, b).value[ns] == AddAll(w, verifies, a).value[ns]
  {
    AddAllMeaning(w, verifies, a);
    var c :| c in a && c.namespace == ns;
    AddAllMeaning(w, verifies, b);
    assert c in b;
  }

  // Neither success nor the stored policies depend on the order of the calls.
  lemma AddOrderIrrelevant(w: Wire, verifies: (Bytes, Envelope) -> bool, a: seq<Call>, b: seq<Call>)
    requires Faithful(w) && multiset(a) == multiset(b)
    ensures AddAll(w, verifies, a).Ok? <==> AddAll(w, verifies, b).Ok?
    ensures AddAll(w, verifies, a).Ok? ==> AddAll(w, verifies, a) == AddAll(w, verifies, b)
  {
    assert forall c :: c in a <==> c in b by {
      assert forall c :: (c in a <==> c in multiset(a)) && (c in b <==> c in multiset(b));
    }
    if AddAll(w, verifies, a).Ok? {
      SameCallsSucceed(w, verifies, a, b);
      var x, y := AddAll(w, verifies, a).value, AddAll(w, verifies, b).value;
      forall ns | ns in x ensures ns in y && y[ns] == x[ns] { SameCallsContained(w, verifies, a, b, ns); }
      forall ns | ns in y ensures ns in x { SameCallsContained(w, verifies, b, a, ns); }
      assert x == y;
    } else if AddAll(w, verifies, b).Ok? {
      SameCallsSucceed(w, verifies, b, a);
    }
  }

  // The stored policy of a namespace accepts exactly what each of its sources accepts.
  lemma StoredPolicySound(w: Wire, verifies: (Bytes, Envelope) -> bool, calls: seq<Call>, call: Call,
                          signers: seq<Identity>)
    requires Faithful(w) && AllGenuine(signers) && call in calls && AddAll(w, verifies, calls).Ok?
    ensures var stored := AddAll(w, verifies, calls).value;
            && call.namespace in stored
            && InRange(stored[call.namespace].rule, |stored[call.namespace].identities|)
            && Accepts(stored[call.namespace], signers) == SourceAccepts(call, signers)
  {
    AddAllMeaning(w, verifies, calls);
    ResolveSound(w, call, signers);
  }
}
