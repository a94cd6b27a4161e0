/** canonicalPolicy: sort and de-duplicate the principals of a signature policy and re-index its
    leaves. The rules keep their order, because Fabric consumes identities in that order. */
module CanonicalPolicy {
  import opened Prelude
  import opened SignaturePolicy

  datatype PolicyError =
    | NilPrincipalError | MissingRule | UnknownPrincipal | InvalidThreshold | UnsupportedRule
    | MissingPolicy | MissingReference | NotConvertible | SubpolicyCountChanged | OverlappingBranches
    | ConflictingPolicies | VerifierRejected

  // Deterministic protobuf marshalling, as far as the code depends on it: distinct principals, and
  // distinct rules without malformed nodes, have distinct bytes.
  datatype Wire = Wire(principalKey: Principal -> Bytes, ruleKey: Rule -> Bytes)

  ghost predicate Faithful(w: Wire) {
    && (forall p, q | p != NilPrincipal && q != NilPrincipal && w.principalKey(p) == w.principalKey(q) :: p == q)
    && (forall r, s, count: nat | InRange(r, count) && InRange(s, count) && w.ruleKey(r) == w.ruleKey(s) :: r == s)
  }

  /* Principals. */

  // Put a principal in its place, unless its key is there already.
  function Insert(w: Wire, p: Principal, sorted: seq<Principal>): seq<Principal> {
    if sorted == [] then [p]
    else if w.principalKey(p) == w.principalKey(sorted[0]) then sorted
    else if Less(w.principalKey(p), w.principalKey(sorted[0])) then [p] + sorted
    else [sorted[0]] + Insert(w, p, sorted[1..])
  }

  function DistinctPrincipals(w: Wire, identities: seq<Principal>): seq<Principal> {
    if identities == [] then [] else Insert(w, identities[0], DistinctPrincipals(w, identities[1..]))
  }

  lemma {:induction false} InsertElements(w: Wire, p: Principal, sorted: seq<Principal>)
    requires Faithful(w) && p != NilPrincipal && NilPrincipal !in sorted
    ensures Elements(Insert(w, p, sorted)) == {p} + Elements(sorted)
  {
    if sorted != [] {
      assert sorted == [sorted[0]] + sorted[1..];
      InsertElements(w, p, sorted[1..]);
      forall x ensures x in Insert(w, p, sorted) <==> x == p || x in sorted {
        assert x in Elements(Insert(w, p, sorted[1..])) <==> x in {p} + Elements(sorted[1..]);
      }
    }
  }

  lemma {:induction false} InsertSorted(w: Wire, p: Principal, sorted: seq<Principal>)
    requires Faithful(w) && StrictlySorted(w.principalKey, sorted) && p != NilPrincipal && NilPrincipal !in sorted
    ensures StrictlySorted(w.principalKey, Insert(w, p, sorted))
  {
    if sorted != [] {
      var k, k0 := w.principalKey(p), w.principalKey(sorted[0]);
      LessTotal(k, k0);
      if k == k0 {
      } else if Less(k, k0) {
        forall j | 1 <= j < |sorted| ensures Less(k, w.principalKey(sorted[j])) {
          LessTransitive(k, k0, w.principalKey(sorted[j]));
        }
      } else {
        InsertSorted(w, p, sorted[1..]);
        InsertElements(w, p, sorted[1..]);
        var rest := Insert(w, p, sorted[1..]);
        forall j | 0 <= j < |rest| ensures Less(k0, w.principalKey(rest[j])) {
          assert rest[j] in Elements(rest);
          if rest[j] != p {
            assert rest[j] in sorted[1..];
          }
        }
      }
    }
  }

  lemma {:induction false} DistinctPrincipalsSorted(w: Wire, identities: seq<Principal>)
    requires Faithful(w) && NilPrincipal !in identities
    ensures StrictlySorted(w.principalKey, DistinctPrincipals(w, identities))
    ensures Elements(DistinctPrincipals(w, identities)) == Elements(identities)
  {
    if identities != [] {
      assert identities == [identities[0]] + identities[1..];
      var rest := DistinctPrincipals(w, identities[1..]);
      DistinctPrincipalsSorted(w, identities[1..]);
      assert NilPrincipal !in Elements(rest);
      InsertSorted(w, identities[0], rest);
      InsertElements(w, identities[0], rest);
    }
  }

  // A strictly sorted list of principals is determined by its elements.
  lemma StrictlySortedUnique(w: Wire, a: seq<Principal>, b: seq<Principal>)
    requires StrictlySorted(w.principalKey, a) && StrictlySorted(w.principalKey, b)
    requires Elements(a) == Elements(b)
    ensures a == b
  {
    StrictlySortedDistinct(w, a);
    StrictlySortedDistinct(w, b);
    SameElementsPermute(a, b);
    SortedUnique(w.principalKey, a, b);
  }

  lemma StrictlySortedDistinct(w: Wire, a: seq<Principal>)
    requires StrictlySorted(w.principalKey, a)
    ensures NoDuplicates(a) && Sorted(w.principalKey, a) && Distinguishes(w.principalKey, a)
  {
    forall i, j | 0 <= i < j < |a| ensures a[i] != a[j] && !Less(w.principalKey(a[j]), w.principalKey(a[i])) {
      LessIrreflexive(w.principalKey(a[i]));
      if Less(w.principalKey(a[j]), w.principalKey(a[i])) {
        LessTransitive(w.principalKey(a[i]), w.principalKey(a[j]), w.principalKey(a[i]));
      }
    }
    forall x, y | x in a && y in a && w.principalKey(x) == w.principalKey(y) ensures x == y {
      LessIrreflexive(w.principalKey(x));
    }
  }

  /* Rules. */

  function IndexOf(p: Principal, identities: seq<Principal>): (i: nat)
    requires p in identities
    ensures i < |identities| && identities[i] == p
  {
    if identities[0] == p then 0 else 1 + IndexOf(p, identities[1..])
  }

  // The `normalize` closure.
  function Reindex(rule: Rule, source: seq<Principal>, target: seq<Principal>): Result<Rule, PolicyError>
    requires Elements(source) <= Elements(target)
    decreases rule, 0
  {
    match rule
    case NilRule => Err(MissingRule)
    case UnsetRule => Err(UnsupportedRule)
    case NilThreshold => Err(InvalidThreshold)
    case SignedBy(i) =>
      if i < 0 || i >= |source| then Err(UnknownPrincipal)
      else (assert source[i] in Elements(source); Ok(SignedBy(IndexOf(source[i], target))))
    case NOutOf(n, rules) =>
      if n < 0 || n > |rules| then Err(InvalidThreshold)
      else
        var children :- ReindexAll(rules, source, target);
        Ok(NOutOf(n, children))
  }

  function ReindexAll(rules: seq<Rule>, source: seq<Principal>, target: seq<Principal>): Result<seq<Rule>, PolicyError>
    requires Elements(source) <= Elements(target)
    decreases rules, 1
  {
    if rules == [] then Ok([])
    else
      var head :- Reindex(rules[0], source, target);
      var tail :- ReindexAll(rules[1..], source, target);
      Ok([head] + tail)
  }

  function Canonical(w: Wire, policy: Envelope): Result<Envelope, PolicyError>
    requires Faithful(w)
  {
    if NilPrincipal in policy.identities then Err(NilPrincipalError)
    else
      var identities := DistinctPrincipals(w, policy.identities);
      DistinctPrincipalsSorted(w, policy.identities);
      var rule :- Reindex(policy.rule, policy.identities, identities);
      Ok(Envelope(policy.version, rule, identities))
  }

  /* What the code accepts, and what it keeps. */

  predicate ValidThresholds(rule: Rule) {
    rule.NOutOf? ==> 0 <= rule.n <= |rule.rules| && forall r | r in rule.rules :: ValidThresholds(r)
  }

  predicate Valid(policy: Envelope) {
    && NilPrincipal !in policy.identities
    && InRange(policy.rule, |policy.identities|)
    && ValidThresholds(policy.rule)
  }

  // A rule and everything in it.
  function Parts(rule: Rule): set<Rule>
    decreases rule, 0
  {
    {rule} + if rule.NOutOf? then PartsAll(rule.rules) else {}
  }

  function PartsAll(rules: seq<Rule>): set<Rule>
    decreases rules, 1
  {
    if rules == [] then {} else Parts(rules[0]) + PartsAll(rules[1..])
  }

  // Every part is a leaf with a known principal, or a threshold that its rules can reach.
  predicate SoundPart(part: Rule, count: nat) {
    (part.SignedBy? && 0 <= part.index < count) || (part.NOutOf? && 0 <= part.n <= |part.rules|)
  }

  lemma {:induction false} PartsExact(rule: Rule, count: nat)
    ensures InRange(rule, count) && ValidThresholds(rule)
            <==> forall part | part in Parts(rule) :: SoundPart(part, count)
    decreases rule, 0
  {
    assert rule in Parts(rule);
    if rule.NOutOf? {
      PartsAllExact(rule.rules, count);
      assert forall part :: part in Parts(rule) <==> part == rule || part in PartsAll(rule.rules);
      assert InRange(rule, count) <==> forall r | r in rule.rules :: InRange(r, count);
      assert SoundPart(rule, count) <==> 0 <= rule.n <= |rule.rules|;
      assert ValidThresholds(rule) <==> SoundPart(rule, count) && forall r | r in rule.rules :: ValidThresholds(r);
    }
  }

  lemma {:induction false} PartsAllExact(rules: seq<Rule>, count: nat)
    ensures (forall r | r in rules :: InRange(r, count)) && (forall r | r in rules :: ValidThresholds(r))
            <==> forall part | part in PartsAll(rules) :: SoundPart(part, count)
    decreases rules, 1
  {
    if rules != [] {
      PartsExact(rules[0], count);
      PartsAllExact(rules[1..], count);
      assert forall r :: r in rules <==> r == rules[0] || r in rules[1..];
      assert forall part :: part in PartsAll(rules) <==> part in Parts(rules[0]) || part in PartsAll(rules[1..]);
    }
  }

  // What a valid policy is: no nil principal, and sound parts only.
  lemma ValidExact(policy: Envelope)
    ensures Valid(policy) <==>
            && NilPrincipal !in policy.identities
            && forall part | part in Parts(policy.rule) ::
                 || (part.SignedBy? && 0 <= part.index < |policy.identities|)
                 || (part.NOutOf? && 0 <= part.n <= |part.rules|)
  {
    PartsExact(policy.rule, |policy.identities|);
    assert forall part :: SoundPart(part, |policy.identities|) <==>
             (part.SignedBy? && 0 <= part.index < |policy.identities|) || (part.NOutOf? && 0 <= part.n <= |part.rules|);
  }

  lemma {:induction false} ReindexPreserves(rule: Rule, source: seq<Principal>, target: seq<Principal>)
    requires Elements(source) <= Elements(target)
    ensures Reindex(rule, source, target).Ok? <==> InRange(rule, |source|) && ValidThresholds(rule)
    ensures var r := Reindex(rule, source, target);
            r.Ok? ==> InRange(r.value, |target|) && ValidThresholds(r.value)
                      && Compile(r.value, target) == Compile(rule, source)
    decreases rule, 0
  {
    match rule
    case NOutOf(n, rules) =>
      ReindexAllPreserves(rules, source, target);
    case _ =>
  }

  lemma {:induction false} ReindexAllPreserves(rules: seq<Rule>, source: seq<Principal>, target: seq<Principal>)
    requires Elements(source) <= Elements(target)
    ensures ReindexAll(rules, source, target).Ok? <==>
            (forall r | r in rules :: InRange(r, |source|)) && (forall r | r in rules :: ValidThresholds(r))
    ensures var r := ReindexAll(rules, source, target);
            r.Ok? ==> |r.value| == |rules|
                      && (forall x | x in r.value :: InRange(x, |target|))
                      && (forall x | x in r.value :: ValidThresholds(x))
                      && CompileAll(r.value, target) == CompileAll(rules, source)
    decreases rules, 1
  {
    if rules != [] {
      assert rules == [rules[0]] + rules[1..];
      ReindexPreserves(rules[0], source, target);
      ReindexAllPreserves(rules[1..], source, target);
      var r := ReindexAll(rules, source, target);
      if r.Ok? {
        assert r.value == [r.value[0]] + r.value[1..];
      }
    }
  }

  // canonicalPolicy succeeds exactly on valid policies; its result is valid, has the same
  // version and the same principals, strictly sorted, and compiles to the same tree.
  lemma CanonicalPreserves(w: Wire, policy: Envelope)
    requires Faithful(w)
    ensures Canonical(w, policy).Ok? <==> Valid(policy)
    ensures var r := Canonical(w, policy);
            r.Ok? ==>
              && Valid(r.value) && r.value.version == policy.version
              && StrictlySorted(w.principalKey, r.value.identities)
              && Elements(r.value.identities) == Elements(policy.identities)
              && Compile(r.value.rule, r.value.identities) == Compile(policy.rule, policy.identities)
  {
    if NilPrincipal !in policy.identities {
      var identities := DistinctPrincipals(w, policy.identities);
      DistinctPrincipalsSorted(w, policy.identities);
      ReindexPreserves(policy.rule, policy.identities, identities);
      assert NilPrincipal !in Elements(identities);
    }
  }

  // Verdict and marks are the same for every list of identities and every initial marking.
  lemma CanonicalKeepsEvaluation(w: Wire, policy: Envelope, signers: seq<Identity>, used: seq<bool>)
    requires Faithful(w) && Valid(policy) && |used| == |signers|
    ensures var r := Canonical(w, policy);
            r.Ok? && InRange(r.value.rule, |r.value.identities|)
            && Eval(Compile(r.value.rule, r.value.identities), signers, used)
               == Eval(Compile(policy.rule, policy.identities), signers, used)
  {
    CanonicalPreserves(w, policy);
  }

  // Over distinct principals a compiled tree has one indexed form.
  lemma {:induction false} CompileInjective(a: Rule, b: Rule, identities: seq<Principal>)
    requires NoDuplicates(identities)
    requires InRange(a, |identities|) && InRange(b, |identities|)
    requires Compile(a, identities) == Compile(b, identities)
    ensures a == b
  {
    match a
    case SignedBy(i) =>
      assert i == b.index;
    case NOutOf(n, rules) =>
      var left, right := CompileAll(rules, identities), CompileAll(b.rules, identities);
      forall k | 0 <= k < |rules| ensures rules[k] == b.rules[k] {
        assert left[k] == right[k];
        CompileInjective(rules[k], b.rules[k], identities);
      }
      assert rules == b.rules;
  }

  // The canonical form is a complete invariant: two valid policies share it exactly when they
  // have the same version, the same principals and the same tree.
  lemma CanonicalComplete(w: Wire, a: Envelope, b: Envelope)
    requires Faithful(w) && Valid(a) && Valid(b)
    ensures Canonical(w, a) == Canonical(w, b) <==>
            && a.version == b.version
            && Elements(a.identities) == Elements(b.identities)
            && Compile(a.rule, a.identities) == Compile(b.rule, b.identities)
  {
    CanonicalPreserves(w, a);
    CanonicalPreserves(w, b);
    var x, y := Canonical(w, a).value, Canonical(w, b).value;
    if && a.version == b.version
       && Elements(a.identities) == Elements(b.identities)
       && Compile(a.rule, a.identities) == Compile(b.rule, b.identities)
    {
      StrictlySortedUnique(w, x.identities, y.identities);
      StrictlySortedDistinct(w, x.identities);
      CompileInjective(x.rule, y.rule, x.identities);
    }
  }

  lemma CanonicalIdempotent(w: Wire, policy: Envelope)
    requires Faithful(w) && Valid(policy)
    ensures Canonical(w, policy).Ok?
    ensures Canonical(w, Canonical(w, policy).value) == Canonical(w, policy)
  {
    CanonicalPreserves(w, policy);
    CanonicalComplete(w, Canonical(w, policy).value, policy);
  }
}
