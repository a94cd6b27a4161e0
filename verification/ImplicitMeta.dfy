/** normalizeImplicitMeta: turn the converted form of an implicit-meta policy, whose branches each
    see every identity, into a signature rule, whose branches consume identities. */
module ImplicitMeta {
  import opened Prelude
  import opened SignaturePolicy
  import opened CanonicalPolicy

  // A channel policy. Unconvertible stands for a policy that has no signature form.
  datatype Policy =
    | Signature(envelope: Envelope)
    | ImplicitMeta(threshold: int, subPolicies: seq<Policy>)
    | Unconvertible

  // Fabric compiles a signature policy when it loads it, so its indexes are in range.
  predicate Convertible(policy: Policy) {
    match policy
    case Signature(e) => e.version == 0 && InRange(e.rule, |e.identities|)
    case ImplicitMeta(_, subs) => forall p | p in subs :: Convertible(p)
    case Unconvertible => false
  }

  // The policy and its subpolicies at any depth.
  function Nested(policy: Policy): set<Policy>
    decreases policy, 0
  {
    match policy
    case ImplicitMeta(_, subs) => {policy} + NestedAll(subs)
    case _ => {policy}
  }

  function NestedAll(subs: seq<Policy>): set<Policy>
    decreases subs, 1
  {
    if subs == [] then {} else Nested(subs[0]) + NestedAll(subs[1..])
  }

  predicate HasForm(p: Policy) {
    !p.Unconvertible? && (p.Signature? ==> p.envelope.version == 0 && InRange(p.envelope.rule, |p.envelope.identities|))
  }

  // A policy has a signature form when every signature policy in it is loaded and no part is of
  // another kind.
  lemma {:induction false} ConvertibleExact(policy: Policy)
    ensures Convertible(policy) <==> forall p | p in Nested(policy) :: HasForm(p)
    decreases policy, 0
  {
    match policy
    case ImplicitMeta(n, subs) =>
      ConvertibleAllExact(subs);
      assert HasForm(policy) && Nested(policy) == {policy} + NestedAll(subs);
    case _ =>
      assert Nested(policy) == {policy};
      assert HasForm(policy) <==> Convertible(policy);
  }

  lemma {:induction false} ConvertibleAllExact(subs: seq<Policy>)
    ensures (forall p | p in subs :: Convertible(p)) <==> forall p | p in NestedAll(subs) :: HasForm(p)
    decreases subs, 1
  {
    hide HasForm;
    if subs != [] {
      ConvertibleExact(subs[0]);
      ConvertibleAllExact(subs[1..]);
      assert forall p :: p in subs <==> p == subs[0] || p in subs[1..];
    }
  }

  /* Evaluation: every subpolicy sees the whole list. */

  predicate PolicyAccepts(policy: Policy, signers: seq<Identity>)
    requires Convertible(policy)
    decreases policy, 0
  {
    match policy
    case Signature(e) => Accepts(e, signers)
    case ImplicitMeta(threshold, subs) => CountAccepting(subs, signers) >= threshold
  }

  function CountAccepting(subs: seq<Policy>, signers: seq<Identity>): (c: nat)
    requires forall p | p in subs :: Convertible(p)
    ensures c <= |subs|
    decreases subs, 1
  {
    if subs == [] then 0
    else (if PolicyAccepts(subs[0], signers) then 1 else 0) + CountAccepting(subs[1..], signers)
  }

  /* Conversion: one N-of whose branches are the converted subpolicies. */

  function ConvertedTree(policy: Policy): Tree
    requires Convertible(policy)
    decreases policy, 0
  {
    match policy
    case Signature(e) => Compile(e.rule, e.identities)
    case ImplicitMeta(threshold, subs) => Threshold(threshold, ConvertedTrees(subs))
  }

  function ConvertedTrees(subs: seq<Policy>): (trees: seq<Tree>)
    requires forall p | p in subs :: Convertible(p)
    ensures |trees| == |subs|
    ensures forall i :: 0 <= i < |subs| ==> trees[i] == ConvertedTree(subs[i])
    decreases subs, 1
  {
    if subs == [] then [] else [ConvertedTree(subs[0])] + ConvertedTrees(subs[1..])
  }

  function Principals(policy: Policy): set<Principal>
    requires Convertible(policy)
    decreases policy, 0
  {
    match policy
    case Signature(e) => Elements(e.identities)
    case ImplicitMeta(_, subs) => PrincipalsAll(subs)
  }

  function PrincipalsAll(subs: seq<Policy>): set<Principal>
    requires forall p | p in subs :: Convertible(p)
    decreases subs, 1
  {
    if subs == [] then {} else Principals(subs[0]) + PrincipalsAll(subs[1..])
  }

  // The envelopes that Convert may return, however it merges the identity lists.
  ghost predicate IsConversion(policy: Policy, e: Envelope) {
    && Convertible(policy)
    && e.version == 0
    && InRange(e.rule, |e.identities|)
    && Compile(e.rule, e.identities) == ConvertedTree(policy)
    && Elements(e.identities) == Principals(policy)
  }

  /* The merge loop. */

  // The leaf of a rule that is one leaf inside any number of 1-of-1 wrappers.
  function SingleLeaf(rule: Rule): Option<int> {
    match rule
    case SignedBy(i) => Some(i)
    case NOutOf(n, rules) => if n != 1 || |rules| != 1 then None else SingleLeaf(rules[0])
    case _ => None
  }

  // singlePolicyRole: the ROLE principal of such a rule.
  function SingleRole(rule: Rule, identities: seq<Principal>): (role: Option<Principal>)
    requires InRange(rule, |identities|)
    ensures role.Some? ==> role.value.RolePrincipal?
  {
    SingleLeafInRange(rule, |identities|);
    var leaf := SingleLeaf(rule);
    if leaf.Some? && identities[leaf.value].RolePrincipal? then Some(identities[leaf.value]) else None
  }

  lemma {:induction false} SingleLeafInRange(rule: Rule, count: nat)
    requires InRange(rule, count)
    ensures SingleLeaf(rule).Some? ==> 0 <= SingleLeaf(rule).value < count
  {
    if rule.NOutOf? && rule.n == 1 && |rule.rules| == 1 {
      SingleLeafInRange(rule.rules[0], count);
    }
  }

  // A peer principal and a member principal of one MSP.
  predicate PeerAndMember(p: Principal, m: Principal) {
    && p.RolePrincipal? && m.RolePrincipal? && p.msp != "" && p.msp == m.msp
    && p.role == Peer && m.role == Member
  }

  predicate PeerImpliesMember(peer: Rule, member: Rule, identities: seq<Principal>)
    requires InRange(peer, |identities|) && InRange(member, |identities|)
  {
    var p, m := SingleRole(peer, identities), SingleRole(member, identities);
    p.Some? && m.Some? && PeerAndMember(p.value, m.value)
  }

  // A leaf inside `wrappers` rules that are 1-of-1.
  function Wrapped(principal: Principal, wrappers: nat): Tree {
    if wrappers == 0 then Leaf(principal) else Threshold(1, [Wrapped(principal, wrappers - 1)])
  }

  // The ROLE principal of such a tree.
  function TreeRole(tree: Tree): (role: Option<Principal>)
    ensures role.Some? ==> role.value.RolePrincipal?
  {
    match tree
    case Leaf(p) => if p.RolePrincipal? then Some(p) else None
    case Threshold(n, branches) => if n == 1 && |branches| == 1 then TreeRole(branches[0]) else None
  }

  lemma {:induction false} RoleOfWrapped(p: Principal, wrappers: nat)
    requires p.RolePrincipal?
    ensures TreeRole(Wrapped(p, wrappers)) == Some(p)
  {
    if wrappers > 0 { RoleOfWrapped(p, wrappers - 1); }
  }

  lemma {:induction false} WrappedOfRole(tree: Tree) returns (wrappers: nat)
    requires TreeRole(tree).Some?
    ensures tree == Wrapped(TreeRole(tree).value, wrappers)
  {
    wrappers := 0;
    if tree.Threshold? {
      wrappers := WrappedOfRole(tree.branches[0]);
      wrappers := wrappers + 1;
      assert tree.branches == [tree.branches[0]];
    }
  }

  // singlePolicyRole looks at a rule only through its tree.
  lemma {:induction false} SingleRoleTree(rule: Rule, identities: seq<Principal>)
    requires InRange(rule, |identities|)
    ensures SingleRole(rule, identities) == TreeRole(Compile(rule, identities))
  {
    if rule.NOutOf? {
      var trees := CompileAll(rule.rules, identities);
      if rule.n == 1 && |rule.rules| == 1 { SingleRoleTree(rule.rules[0], identities); }
    }
  }

  // singlePolicyRole finds the ROLE principal of a leaf inside any number of 1-of-1 rules, and
  // nothing else.
  lemma SingleRoleExact(rule: Rule, identities: seq<Principal>, p: Principal)
    requires InRange(rule, |identities|)
    ensures SingleRole(rule, identities) == Some(p)
            <==> p.RolePrincipal? && exists k: nat :: Compile(rule, identities) == Wrapped(p, k)
  {
    SingleRoleTree(rule, identities);
    var tree := Compile(rule, identities);
    if TreeRole(tree).Some? { var k := WrappedOfRole(tree); }
    if k: nat :| p.RolePrincipal? && tree == Wrapped(p, k) { RoleOfWrapped(p, k); }
  }

  // peerImpliesMember compares a leaf for the peers of an MSP with one for its members, both inside
  // any number of 1-of-1 rules.
  lemma PeerImpliesExact(peer: Rule, member: Rule, identities: seq<Principal>)
    requires InRange(peer, |identities|) && InRange(member, |identities|)
    ensures PeerImpliesMember(peer, member, identities) <==>
            exists msp, x, y, k: nat, l: nat ::
              && msp != "" && Compile(peer, identities) == Wrapped(RolePrincipal(msp, Peer, x), k)
              && Compile(member, identities) == Wrapped(RolePrincipal(msp, Member, y), l)
  {
    hide Wrapped, TreeRole;
    SingleRoleTree(peer, identities);
    SingleRoleTree(member, identities);
    var x, y := Compile(peer, identities), Compile(member, identities);
    if PeerImpliesMember(peer, member, identities) {
      var k := WrappedOfRole(x);
      var l := WrappedOfRole(y);
      var p, m := TreeRole(x).value, TreeRole(y).value;
      assert p == RolePrincipal(p.msp, Peer, p.rest) && m == RolePrincipal(p.msp, Member, m.rest);
    }
    if msp, v, w, k: nat, l: nat :|
      msp != "" && x == Wrapped(RolePrincipal(msp, Peer, v), k) && y == Wrapped(RolePrincipal(msp, Member, w), l)
    {
      RoleOfWrapped(RolePrincipal(msp, Peer, v), k);
      RoleOfWrapped(RolePrincipal(msp, Member, w), l);
    }
  }

  predicate AllInRange(rules: seq<Rule>, count: nat) {
    forall r | r in rules :: InRange(r, count)
  }

  predicate Redundant(rules: seq<Rule>, i: nat, all: bool, identities: seq<Principal>)
    requires i < |rules| && AllInRange(rules, |identities|)
  {
    exists j :: 0 <= j < |rules|
                && ((j < i && rules[j] == rules[i]) || (all && PeerImpliesMember(rules[j], rules[i], identities)))
  }

  // The branches from `i` on that are kept.
  function Merge(rules: seq<Rule>, i: nat, all: bool, identities: seq<Principal>): seq<Rule>
    requires i <= |rules| && AllInRange(rules, |identities|)
    decreases |rules| - i
  {
    if i == |rules| then []
    else (if Redundant(rules, i, all, identities) then [] else [rules[i]]) + Merge(rules, i + 1, all, identities)
  }

  /* The boundary. */

  // Refuse branches that compete for identities; order the others by their bytes.
  function CloseBoundary(w: Wire, n: int, rules: seq<Rule>, identities: seq<Principal>): (r: Result<Rule, PolicyError>)
    requires AllInRange(rules, |identities|)
    ensures r.Ok? ==> InRange(r.value, |identities|)
  {
    SortByInRange(w, rules, |identities|);
    if !Independent(CompileAll(rules, identities)) then Err(OverlappingBranches)
    else Ok(NOutOf(n, SortBy(w.ruleKey, rules)))
  }

  lemma SortByInRange(w: Wire, rules: seq<Rule>, count: nat)
    requires AllInRange(rules, count)
    ensures AllInRange(SortBy(w.ruleKey, rules), count)
  {
    SortByPermutes(w.ruleKey, rules);
    forall x | x in SortBy(w.ruleKey, rules) ensures InRange(x, count) {
      assert x in multiset(SortBy(w.ruleKey, rules));
    }
  }

  // Merge under ALL and ANY, collapse a single survivor, close the boundary otherwise.
  function Finish(w: Wire, n: int, rules: seq<Rule>, identities: seq<Principal>): (r: Result<Rule, PolicyError>)
    requires AllInRange(rules, |identities|)
    ensures r.Ok? ==> InRange(r.value, |identities|)
  {
    var all := n == |rules|;
    if all || n == 1 then
      var merged := Merge(rules, 0, all, identities);
      MergeElements(rules, 0, all, identities);
      if |merged| == 1 then Ok(merged[0])
      else CloseBoundary(w, if all then |merged| else n, merged, identities)
    else CloseBoundary(w, n, rules, identities)
  }

  function Normalize(w: Wire, source: Policy, rule: Rule, identities: seq<Principal>): (r: Result<Rule, PolicyError>)
    requires InRange(rule, |identities|)
    ensures r.Ok? ==> InRange(r.value, |identities|)
    decreases source, 0
  {
    if !source.ImplicitMeta? then Ok(rule)
    else if !rule.NOutOf? || |rule.rules| != |source.subPolicies| then Err(SubpolicyCountChanged)
    else
      var rules :- NormalizeAll(w, source.subPolicies, rule.rules, identities);
      Finish(w, rule.n, rules, identities)
  }

  function NormalizeAll(w: Wire, sources: seq<Policy>, rules: seq<Rule>, identities: seq<Principal>)
    : (r: Result<seq<Rule>, PolicyError>)
    requires |sources| == |rules| && AllInRange(rules, |identities|)
    ensures r.Ok? ==> |r.value| == |rules| && AllInRange(r.value, |identities|)
    decreases sources, 1
  {
    if sources == [] then Ok([])
    else
      var head :- Normalize(w, sources[0], rules[0], identities);
      var tail :- NormalizeAll(w, sources[1..], rules[1..], identities);
      Ok([head] + tail)
  }

  lemma {:induction false} NormalizeAllSplit(w: Wire, a: seq<Policy>, b: seq<Policy>, x: seq<Rule>, y: seq<Rule>,
                                             identities: seq<Principal>)
    requires |a| == |x| && |b| == |y| && AllInRange(x, |identities|) && AllInRange(y, |identities|)
    ensures var whole := NormalizeAll(w, a + b, x + y, identities);
            var left, right := NormalizeAll(w, a, x, identities), NormalizeAll(w, b, y, identities);
            whole == if left.Err? then left else if right.Err? then right else Ok(left.value + right.value)
  {
    if a == [] {
      assert a + b == b && x + y == y;
      if NormalizeAll(w, b, y, identities).Ok? {
        assert [] + NormalizeAll(w, b, y, identities).value == NormalizeAll(w, b, y, identities).value;
      }
    } else {
      assert (a + b)[1..] == a[1..] + b && (x + y)[1..] == x[1..] + y;
      NormalizeAllSplit(w, a[1..], b, x[1..], y, identities);
      var head := Normalize(w, a[0], x[0], identities);
      var tail, right := NormalizeAll(w, a[1..], x[1..], identities), NormalizeAll(w, b, y, identities);
      if head.Ok? && tail.Ok? && right.Ok? {
        assert [head.value] + (tail.value + right.value) == ([head.value] + tail.value) + right.value;
      }
    }
  }

  /* What the merge keeps. */

  lemma {:induction false} MergeElements(rules: seq<Rule>, i: nat, all: bool, identities: seq<Principal>)
    requires i <= |rules| && AllInRange(rules, |identities|)
    ensures forall x :: x in Merge(rules, i, all, identities) <==>
                        exists k :: i <= k < |rules| && rules[k] == x && !Redundant(rules, k, all, identities)
    ensures NoDuplicates(Merge(rules, i, all, identities))
    ensures AllInRange(Merge(rules, i, all, identities), |identities|)
    decreases |rules| - i
  {
    if i < |rules| {
      MergeElements(rules, i + 1, all, identities);
      var rest := Merge(rules, i + 1, all, identities);
      assert forall k :: i < k < |rules| && rules[k] == rules[i] ==> Redundant(rules, k, all, identities);
      assert !Redundant(rules, i, all, identities) ==> rules[i] !in rest;
    }
  }

  lemma {:induction false} FirstIndex<T>(s: seq<T>, x: T) returns (k: nat)
    requires x in s
    ensures k < |s| && s[k] == x && forall j :: 0 <= j < k ==> s[j] != x
  {
    if s[0] == x {
      k := 0;
    } else {
      k := FirstIndex(s[1..], x);
      k := k + 1;
      forall j | 0 <= j < k ensures s[j] != x {
        if j > 0 { assert s[j] == s[1..][j - 1]; }
      }
    }
  }

  // Exactly one copy of each branch survives, except member branches under ALL with a peer.
  lemma MergeMeaning(rules: seq<Rule>, all: bool, identities: seq<Principal>)
    requires AllInRange(rules, |identities|)
    ensures NoDuplicates(Merge(rules, 0, all, identities)) && AllInRange(Merge(rules, 0, all, identities), |identities|)
    ensures forall x :: x in Merge(rules, 0, all, identities) <==>
                        x in rules && !(all && exists p | p in rules :: PeerImpliesMember(p, x, identities))
  {
    MergeElements(rules, 0, all, identities);
    forall x | x in rules && !(all && exists p | p in rules :: PeerImpliesMember(p, x, identities))
      ensures x in Merge(rules, 0, all, identities)
    {
      var k := FirstIndex(rules, x);
      assert !Redundant(rules, k, all, identities);
    }
    forall x, p | x in Merge(rules, 0, all, identities) && p in rules && all
      ensures !PeerImpliesMember(p, x, identities)
    {
      var k :| 0 <= k < |rules| && rules[k] == x && !Redundant(rules, k, all, identities);
      var j :| 0 <= j < |rules| && rules[j] == p;
    }
  }

  // Every dropped branch equals a survivor or, under ALL, is implied by one.
  lemma MergeJustified(rules: seq<Rule>, all: bool, identities: seq<Principal>, x: Rule)
    requires AllInRange(rules, |identities|) && x in rules
    ensures AllInRange(Merge(rules, 0, all, identities), |identities|)
    ensures x in Merge(rules, 0, all, identities)
            || (all && exists p | p in Merge(rules, 0, all, identities) :: PeerImpliesMember(p, x, identities))
  {
    MergeMeaning(rules, all, identities);
    if all && exists p | p in rules :: PeerImpliesMember(p, x, identities) {
      var p :| p in rules && PeerImpliesMember(p, x, identities);
      assert forall q | q in rules :: !PeerImpliesMember(q, p, identities);
      assert p in Merge(rules, 0, all, identities);
    }
  }

  lemma {:induction false} SingleLeafAlone(rule: Rule, identities: seq<Principal>, signers: seq<Identity>)
    requires InRange(rule, |identities|) && SingleLeaf(rule).Some?
    ensures 0 <= SingleLeaf(rule).value < |identities|
    ensures Alone(Compile(rule, identities), signers) <==>
            exists k :: 0 <= k < |signers| && signers[k].satisfies(identities[SingleLeaf(rule).value])
  {
    SingleLeafInRange(rule, |identities|);
    if rule.NOutOf? {
      SingleLeafAlone(rule.rules[0], identities, signers);
      var trees := CompileAll(rule.rules, identities);
      var head := Eval(trees[0], signers, Clear(|signers|));
      assert EvalAll(trees[1..], signers, if head.ok then head.marks else Clear(|signers|)).count == 0;
      assert EvalAll(trees, signers, Clear(|signers|)).count == if head.ok then 1 else 0;
    }
  }

  lemma PeerImpliesAlone(peer: Rule, member: Rule, identities: seq<Principal>, signers: seq<Identity>)
    requires InRange(peer, |identities|) && InRange(member, |identities|) && AllGenuine(signers)
    requires PeerImpliesMember(peer, member, identities)
    requires Alone(Compile(peer, identities), signers)
    ensures Alone(Compile(member, identities), signers)
  {
    SingleLeafAlone(peer, identities, signers);
    SingleLeafAlone(member, identities, signers);
    var p, m := identities[SingleLeaf(peer).value], identities[SingleLeaf(member).value];
    var k :| 0 <= k < |signers| && signers[k].satisfies(p);
    assert Genuine(signers[k]);
    assert signers[k].satisfies(m);
  }

  lemma {:induction false} CountAloneMeaning(branches: seq<Tree>, signers: seq<Identity>)
    ensures CountAlone(branches, signers) == |branches| <==>
            forall i :: 0 <= i < |branches| ==> Alone(branches[i], signers)
    ensures CountAlone(branches, signers) >= 1 <==>
            exists i :: 0 <= i < |branches| && Alone(branches[i], signers)
  {
    if branches != [] {
      var rest := branches[1..];
      CountAloneMeaning(rest, signers);
      assert forall i :: 0 <= i < |rest| ==> rest[i] == branches[i + 1];
      assert forall i :: 1 <= i < |branches| ==> branches[i] == rest[i - 1];
    }
  }

  // One list of branches stands in for another under ALL, or under ANY.
  ghost predicate StandsIn(before: seq<Tree>, after: seq<Tree>, all: bool, signers: seq<Identity>) {
    && (forall x | x in after :: x in before)
    && (forall x | x in before ::
          x in after || (all && exists y | y in after :: Alone(y, signers) ==> Alone(x, signers)))
  }

  lemma StandsInSound(before: seq<Tree>, after: seq<Tree>, all: bool, signers: seq<Identity>)
    requires StandsIn(before, after, all, signers)
    ensures if all then CountAlone(before, signers) == |before| <==> CountAlone(after, signers) == |after|
            else CountAlone(before, signers) >= 1 <==> CountAlone(after, signers) >= 1
  {
    CountAloneMeaning(before, signers);
    CountAloneMeaning(after, signers);
    assert forall i :: 0 <= i < |before| ==> before[i] in before;
    assert forall i :: 0 <= i < |after| ==> after[i] in after;
  }

  // Under ALL the survivors all accept exactly when the branches all did; under ANY one of the
  // survivors accepts exactly when one of the branches did.
  lemma MergeSound(rules: seq<Rule>, all: bool, identities: seq<Principal>, signers: seq<Identity>)
    requires AllInRange(rules, |identities|) && AllGenuine(signers)
    ensures AllInRange(Merge(rules, 0, all, identities), |identities|)
    ensures var before := CompileAll(rules, identities);
            var after := CompileAll(Merge(rules, 0, all, identities), identities);
            if all then CountAlone(before, signers) == |before| <==> CountAlone(after, signers) == |after|
            else CountAlone(before, signers) >= 1 <==> CountAlone(after, signers) >= 1
  {
    MergeMeaning(rules, all, identities);
    var merged := Merge(rules, 0, all, identities);
    var before, after := CompileAll(rules, identities), CompileAll(merged, identities);
    assert StandsIn(before, after, all, signers) by {
      forall x | x in after ensures x in before {
        var k :| 0 <= k < |merged| && after[k] == x;
        assert merged[k] in rules;
        CompiledMember(rules, merged[k], identities);
      }
      forall x | x in before
        ensures x in after || (all && exists y | y in after :: Alone(y, signers) ==> Alone(x, signers))
      {
        var i :| 0 <= i < |rules| && before[i] == x;
        MergeJustified(rules, all, identities, rules[i]);
        if rules[i] in merged {
          CompiledMember(merged, rules[i], identities);
        } else {
          var p :| p in merged && PeerImpliesMember(p, rules[i], identities);
          CompiledMember(merged, p, identities);
          if Alone(Compile(p, identities), signers) { PeerImpliesAlone(p, rules[i], identities, signers); }
        }
      }
    }
    StandsInSound(before, after, all, signers);
  }

  lemma CompiledMember(rules: seq<Rule>, rule: Rule, identities: seq<Principal>)
    requires AllInRange(rules, |identities|) && rule in rules
    ensures Compile(rule, identities) in CompileAll(rules, identities)
  {
    var i :| 0 <= i < |rules| && rules[i] == rule;
    assert CompileAll(rules, identities)[i] == Compile(rule, identities);
  }

  /* Normalization preserves acceptance. */

  lemma CompileAllWithout(rules: seq<Rule>, k: nat, identities: seq<Principal>)
    requires k < |rules| && AllInRange(rules, |identities|)
    ensures AllInRange(Without(rules, k), |identities|)
    ensures CompileAll(Without(rules, k), identities) == Without(CompileAll(rules, identities), k)
  {
    assert forall i :: 0 <= i < |rules| - 1 ==> Without(rules, k)[i] in rules;
  }

  lemma {:induction false} CompileAllPermutes(a: seq<Rule>, b: seq<Rule>, identities: seq<Principal>)
    requires multiset(a) == multiset(b) && AllInRange(a, |identities|)
    ensures AllInRange(b, |identities|)
    ensures multiset(CompileAll(a, identities)) == multiset(CompileAll(b, identities))
  {
    forall r | r in b ensures InRange(r, |identities|) { assert r in multiset(a); }
    assert |multiset(a)| == |multiset(b)|;
    if a != [] {
      var k := MultisetHead(a, b);
      CompileAllWithout(b, k, identities);
      CompileAllPermutes(a[1..], Without(b, k), identities);
      var x, y := CompileAll(a, identities), CompileAll(b, identities);
      WithoutMultiset(x, 0);
      WithoutMultiset(y, k);
      assert Without(x, 0) == x[1..] == CompileAll(a[1..], identities);
      assert y[k] == x[0];
    }
  }

  // Closing a boundary: the consuming rule accepts when enough branches accept on their own.
  lemma CloseBoundarySound(w: Wire, n: int, rules: seq<Rule>, identities: seq<Principal>, signers: seq<Identity>)
    requires AllInRange(rules, |identities|) && AllGenuine(signers)
    requires CloseBoundary(w, n, rules, identities).Ok?
    ensures Alone(Compile(CloseBoundary(w, n, rules, identities).value, identities), signers)
            == (CountAlone(CompileAll(rules, identities), signers) >= n)
  {
    var sorted := SortBy(w.ruleKey, rules);
    SortByPermutes(w.ruleKey, rules);
    CompileAllPermutes(rules, sorted, identities);
    IndependentReorder(n, CompileAll(rules, identities), CompileAll(sorted, identities), signers);
  }

  lemma FinishSound(w: Wire, n: int, rules: seq<Rule>, identities: seq<Principal>, signers: seq<Identity>)
    requires AllInRange(rules, |identities|) && AllGenuine(signers)
    requires Finish(w, n, rules, identities).Ok?
    ensures Alone(Compile(Finish(w, n, rules, identities).value, identities), signers)
            == (CountAlone(CompileAll(rules, identities), signers) >= n)
  {
    var all := n == |rules|;
    if all || n == 1 {
      var merged := Merge(rules, 0, all, identities);
      MergeSound(rules, all, identities, signers);
      if |merged| == 1 {
        CountAloneMeaning(CompileAll(merged, identities), signers);
      } else {
        CloseBoundarySound(w, if all then |merged| else n, merged, identities, signers);
      }
    } else {
      CloseBoundarySound(w, n, rules, identities, signers);
    }
  }

  lemma {:induction false} NormalizeSound(w: Wire, source: Policy, rule: Rule, identities: seq<Principal>,
                                          signers: seq<Identity>)
    requires InRange(rule, |identities|) && AllGenuine(signers)
    requires Convertible(source) && Compile(rule, identities) == ConvertedTree(source)
    requires Normalize(w, source, rule, identities).Ok?
    ensures Alone(Compile(Normalize(w, source, rule, identities).value, identities), signers)
            == PolicyAccepts(source, signers)
    decreases source, 0
  {
    if source.ImplicitMeta? {
      var rules := NormalizeAll(w, source.subPolicies, rule.rules, identities).value;
      NormalizeAllSound(w, source.subPolicies, rule.rules, identities, signers);
      FinishSound(w, rule.n, rules, identities, signers);
    }
  }

  lemma {:induction false} NormalizeAllSound(w: Wire, sources: seq<Policy>, rules: seq<Rule>,
                                             identities: seq<Principal>, signers: seq<Identity>)
    requires |sources| == |rules| && AllInRange(rules, |identities|) && AllGenuine(signers)
    requires forall p | p in sources :: Convertible(p)
    requires CompileAll(rules, identities) == ConvertedTrees(sources)
    requires NormalizeAll(w, sources, rules, identities).Ok?
    ensures CountAlone(CompileAll(NormalizeAll(w, sources, rules, identities).value, identities), signers)
            == CountAccepting(sources, signers)
    decreases sources, 1
  {
    if sources != [] {
      assert CompileAll(rules, identities)[0] == ConvertedTrees(sources)[0];
      assert CompileAll(rules[1..], identities) == CompileAll(rules, identities)[1..]
          == ConvertedTrees(sources)[1..] == ConvertedTrees(sources[1..]);
      NormalizeSound(w, sources[0], rules[0], identities, signers);
      NormalizeAllSound(w, sources[1..], rules[1..], identities, signers);
      var r := NormalizeAll(w, sources, rules, identities).value;
      assert r[1..] == NormalizeAll(w, sources[1..], rules[1..], identities).value;
      assert CompileAll(r, identities)[1..] == CompileAll(r[1..], identities);
    }
  }

  /* The whole conversion. */

  // resolvePolicy for a policy reference, once Convert has returned `converted`.
  function ResolveConverted(w: Wire, policy: Policy, converted: Envelope): (r: Result<Envelope, PolicyError>)
    requires Faithful(w)
    ensures r.Ok? ==> InRange(r.value.rule, |r.value.identities|)
  {
    CanonicalPreserves(w, converted);
    var canonical :- Canonical(w, converted);
    var rule :- Normalize(w, policy, canonical.rule, canonical.identities);
    Ok(Envelope(canonical.version, rule, canonical.identities))
  }

  // Whenever conversion succeeds, the signature policy accepts exactly the identity lists the
  // channel policy accepts.
  lemma ConversionSound(w: Wire, policy: Policy, converted: Envelope, signers: seq<Identity>)
    requires Faithful(w) && AllGenuine(signers) && IsConversion(policy, converted)
    requires ResolveConverted(w, policy, converted).Ok?
    ensures Accepts(ResolveConverted(w, policy, converted).value, signers) == PolicyAccepts(policy, signers)
  {
    CanonicalPreserves(w, converted);
    var canonical := Canonical(w, converted).value;
    NormalizeSound(w, policy, canonical.rule, canonical.identities, signers);
  }
}
