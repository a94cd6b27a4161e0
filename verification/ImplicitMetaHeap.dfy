/** normalizeImplicitMeta and its helpers as the loops and in-place updates of config.go. */
module ImplicitMetaHeap {
  import opened Prelude
  import opened SignaturePolicy
  import opened CanonicalPolicy
  import opened ImplicitMeta
  import opened RuleHeap

  /* independentRules. */

  lemma {:induction false} RolesOnlySplit(a: seq<Tree>, b: seq<Tree>)
    ensures RolesOnlyAll(a + b) <==> RolesOnlyAll(a) && RolesOnlyAll(b)
  {
    if a == [] {
      assert a + b == b;
    } else {
      assert (a + b)[1..] == a[1..] + b;
      RolesOnlySplit(a[1..], b);
    }
  }

  lemma MspsOne(tree: Tree)
    ensures MspsAll([tree]) == Msps(tree)
    ensures RolesOnlyAll([tree]) <==> RolesOnly(tree)
    ensures Independent([tree]) <==> RolesOnly(tree)
  {
    var rest := [tree][1..];
    assert rest == [] && MspsAll(rest) == {} && Independent(rest) && RolesOnlyAll(rest);
  }

  // One branch more than those already visited.
  lemma MspsPrefix(branches: seq<Tree>, i: nat)
    requires i < |branches|
    ensures MspsAll(branches[..i + 1]) == MspsAll(branches[..i]) + Msps(branches[i])
    ensures RolesOnlyAll(branches[..i + 1]) <==> RolesOnlyAll(branches[..i]) && RolesOnly(branches[i])
    ensures Independent(branches[..i + 1]) <==>
            Independent(branches[..i]) && RolesOnly(branches[i]) && MspsAll(branches[..i]) !! Msps(branches[i])
  {
    assert branches[..i + 1] == branches[..i] + [branches[i]];
    MspsOne(branches[i]);
    RolesOnlySplit(branches[..i], [branches[i]]);
    SplitBranches(branches[..i], [branches[i]], []);
  }

  // What fails on a prefix fails on the whole.
  lemma MspsWhole(branches: seq<Tree>, i: nat)
    requires i < |branches|
    ensures MspsAll(branches[..i + 1]) <= MspsAll(branches)
    ensures RolesOnlyAll(branches) ==> RolesOnlyAll(branches[..i + 1])
    ensures Independent(branches) ==> Independent(branches[..i + 1])
  {
    assert branches == branches[..i + 1] + branches[i + 1..];
    RolesOnlySplit(branches[..i + 1], branches[i + 1..]);
    SplitBranches(branches[..i + 1], branches[i + 1..], []);
  }

  // No other branch owns one of the MSPs.
  ghost predicate Free(owners: map<string, int>, msps: set<string>, branch: int) {
    forall m | m in msps && m in owners :: owners[m] == branch
  }

  // Everything in `msps` now belongs to `branch`; the rest keeps its owner.
  ghost function Claim(owners: map<string, int>, msps: set<string>, branch: int): map<string, int> {
    map m | m in owners.Keys + msps :: if m in msps then branch else owners[m]
  }

  lemma ClaimTwice(owners: map<string, int>, a: set<string>, b: set<string>, branch: int)
    ensures Claim(Claim(owners, a, branch), b, branch) == Claim(owners, a + b, branch)
    ensures Free(owners, a, branch) ==>
            (Free(Claim(owners, a, branch), b, branch) <==> Free(owners, a + b, branch))
  {
  }

  // The `owners` map and the `visit` closure over it: the branch that owns each MSP.
  class BranchOwners {
    var owners: map<string, int>

    constructor ()
      ensures owners == map[]
    {
      owners := map[];
    }

    method Visit(rule: Rule, identities: seq<Principal>, branch: int) returns (ok: bool)
      requires InRange(rule, |identities|)
      modifies this
      ensures ok <==> RolesOnly(Compile(rule, identities))
                      && Free(old(owners), Msps(Compile(rule, identities)), branch)
      ensures ok ==> owners == Claim(old(owners), Msps(Compile(rule, identities)), branch)
      decreases rule, 0
    {
      if rule.NOutOf? {
        ok := VisitAll(rule.rules, identities, branch);
        return;
      }
      var principal := identities[rule.index];
      if !principal.RolePrincipal? || principal.msp == "" { return false; }
      if principal.msp in owners && owners[principal.msp] != branch { return false; }
      owners := owners[principal.msp := branch];
      return true;
    }

    method VisitAll(rules: seq<Rule>, identities: seq<Principal>, branch: int) returns (ok: bool)
      requires AllInRange(rules, |identities|)
      modifies this
      ensures ok <==> RolesOnlyAll(CompileAll(rules, identities))
                      && Free(old(owners), MspsAll(CompileAll(rules, identities)), branch)
      ensures ok ==> owners == Claim(old(owners), MspsAll(CompileAll(rules, identities)), branch)
      decreases rules, 1
    {
      ghost var trees := CompileAll(rules, identities);
      ghost var before := owners;
      for i := 0 to |rules|
        invariant RolesOnlyAll(trees[..i]) && Free(before, MspsAll(trees[..i]), branch)
        invariant owners == Claim(before, MspsAll(trees[..i]), branch)
      {
        MspsPrefix(trees, i);
        ClaimTwice(before, MspsAll(trees[..i]), Msps(trees[i]), branch);
        ok := Visit(rules[i], identities, branch);
        if !ok {
          MspsWhole(trees, i);
          return;
        }
      }
      assert trees[..|trees|] == trees;
      return true;
    }
  }

  // True exactly when every leaf is a ROLE principal naming an MSP and no MSP is in two branches.
  method IndependentRules(rules: seq<Rule>, identities: seq<Principal>) returns (ok: bool)
    requires AllInRange(rules, |identities|)
    ensures ok <==> Independent(CompileAll(rules, identities))
  {
    var table := new BranchOwners();
    ghost var trees := CompileAll(rules, identities);
    for branch := 0 to |rules|
      invariant Independent(trees[..branch]) && table.owners.Keys == MspsAll(trees[..branch])
      invariant forall m | m in table.owners :: 0 <= table.owners[m] < branch
    {
      MspsPrefix(trees, branch);
      ghost var msps := Msps(trees[branch]);
      assert Free(table.owners, msps, branch) <==> MspsAll(trees[..branch]) !! msps by {
        assert forall m | m in msps * table.owners.Keys :: m in table.owners && m in msps;
      }
      ok := table.Visit(rules[branch], identities, branch);
      if !ok {
        MspsWhole(trees, branch);
        return;
      }
    }
    assert trees[..|trees|] == trees;
    ok := true;
  }

  /* peerImpliesMember. */

  method SinglePolicyRole(rule: Rule, identities: seq<Principal>) returns (role: Option<Principal>)
    requires InRange(rule, |identities|)
    ensures role == SingleRole(rule, identities)
  {
    var inner := rule;
    while inner.NOutOf?
      invariant InRange(inner, |identities|) && SingleLeaf(inner) == SingleLeaf(rule)
      decreases inner
    {
      if inner.n != 1 || |inner.rules| != 1 { return None; }
      inner := inner.rules[0];
    }
    var principal := identities[inner.index];
    return if principal.RolePrincipal? then Some(principal) else None;
  }

  method PeerImplies(peer: Rule, member: Rule, identities: seq<Principal>) returns (implied: bool)
    requires InRange(peer, |identities|) && InRange(member, |identities|)
    ensures implied == PeerImpliesMember(peer, member, identities)
    ensures implied <==>
            exists msp, x, y, k: nat, l: nat ::
              && msp != "" && Compile(peer, identities) == Wrapped(RolePrincipal(msp, Peer, x), k)
              && Compile(member, identities) == Wrapped(RolePrincipal(msp, Member, y), l)
  {
    hide Wrapped, Compile;
    PeerImpliesExact(peer, member, identities);
    var p := SinglePolicyRole(peer, identities);
    var m := SinglePolicyRole(member, identities);
    return p.Some? && m.Some? && p.value.msp != "" && p.value.msp == m.value.msp
           && p.value.role == Peer && m.value.role == Member;
  }

  /* The merge loop. */

  method IsRedundant(rules: seq<Rule>, i: nat, all: bool, identities: seq<Principal>) returns (redundant: bool)
    requires i < |rules| && AllInRange(rules, |identities|)
    ensures redundant == Redundant(rules, i, all, identities)
  {
    for j := 0 to |rules|
      invariant forall k :: 0 <= k < j ==>
                  !((k < i && rules[k] == rules[i]) || (all && PeerImpliesMember(rules[k], rules[i], identities)))
    {
      var implied := PeerImplies(rules[j], rules[i], identities);
      if (j < i && rules[i] == rules[j]) || (all && implied) { return true; }
    }
    return false;
  }

  // Nodes drawn from a forest, without repetition.
  ghost predicate Drawn(nodes: seq<RuleNode?>, from: seq<RuleNode?>, footprint: set<RuleNode>)
    reads footprint
    requires Rooted(from, footprint)
  {
    (forall c | c in nodes :: c in from) && Rooted(nodes, footprint) && Forest(nodes, footprint)
  }

  // The kept ones among the first `i` branches have been collected.
  ghost predicate MergedTo(nodes: seq<RuleNode?>, merged: seq<RuleNode?>, i: nat, footprint: set<RuleNode>, all: bool,
                           identities: seq<Principal>)
    reads footprint
    requires i <= |nodes| && Rooted(nodes, footprint) && AllInRange(Values(nodes, footprint), |identities|)
  {
    var rules := Values(nodes, footprint);
    Drawn(merged, nodes[..i], footprint)
    && Values(merged, footprint) + Merge(rules, i, all, identities) == Merge(rules, 0, all, identities)
  }

  method MergeBranches(nodes: seq<RuleNode?>, ghost footprint: set<RuleNode>, all: bool, identities: seq<Principal>)
    returns (merged: seq<RuleNode?>)
    requires Rooted(nodes, footprint) && Forest(nodes, footprint)
    requires AllInRange(Values(nodes, footprint), |identities|)
    ensures Drawn(merged, nodes, footprint)
    ensures Values(merged, footprint) == Merge(Values(nodes, footprint), 0, all, identities)
  {
    hide Redundant, Merge, Drawn, Forest, Rooted, MergedTo, AllInRange;
    var rules := Values(nodes, footprint);
    merged := [];
    MergedNone(nodes, footprint, all, identities);
    for i := 0 to |rules|
      invariant MergedTo(nodes, merged, i, footprint, all, identities)
    {
      var redundant := IsRedundant(rules, i, all, identities);
      MergedStep(nodes, merged, i, footprint, all, identities);
      if !redundant { merged := merged + [nodes[i]]; }
    }
    MergedAll(nodes, merged, footprint, all, identities);
  }

  lemma MergedNone(nodes: seq<RuleNode?>, footprint: set<RuleNode>, all: bool, identities: seq<Principal>)
    requires Rooted(nodes, footprint) && Forest(nodes, footprint) && AllInRange(Values(nodes, footprint), |identities|)
    ensures MergedTo(nodes, [], 0, footprint, all, identities)
  {
    hide Merge;
    var kept := Merge(Values(nodes, footprint), 0, all, identities);
    assert [] + kept == kept;
  }

  lemma MergedStep(nodes: seq<RuleNode?>, merged: seq<RuleNode?>, i: nat, footprint: set<RuleNode>, all: bool,
                   identities: seq<Principal>)
    requires i < |nodes| && Rooted(nodes, footprint) && Forest(nodes, footprint)
    requires AllInRange(Values(nodes, footprint), |identities|)
             && MergedTo(nodes, merged, i, footprint, all, identities)
    ensures var redundant := Redundant(Values(nodes, footprint), i, all, identities);
            MergedTo(nodes, if redundant then merged else merged + [nodes[i]],
                     i + 1, footprint, all, identities)
  {
    hide Merge, Redundant, Forest;
    var rules := Values(nodes, footprint);
    MergeStep(rules, i, all, identities, Values(merged, footprint));
    AppendDrawn(nodes, i, merged, footprint);
  }

  lemma MergedAll(nodes: seq<RuleNode?>, merged: seq<RuleNode?>, footprint: set<RuleNode>, all: bool,
                  identities: seq<Principal>)
    requires Rooted(nodes, footprint) && AllInRange(Values(nodes, footprint), |identities|)
    requires MergedTo(nodes, merged, |nodes|, footprint, all, identities)
    ensures Drawn(merged, nodes, footprint) && Rooted(merged, footprint)
    ensures Values(merged, footprint) == Merge(Values(nodes, footprint), 0, all, identities)
  {
    assert nodes[..|nodes|] == nodes;
    assert Values(merged, footprint) + [] == Values(merged, footprint);
  }

  lemma MergeStep(rules: seq<Rule>, i: nat, all: bool, identities: seq<Principal>, kept: seq<Rule>)
    requires i < |rules| && AllInRange(rules, |identities|)
    ensures kept + Merge(rules, i, all, identities)
            == (if Redundant(rules, i, all, identities) then kept else kept + [rules[i]])
               + Merge(rules, i + 1, all, identities)
  {
    var rest := Merge(rules, i + 1, all, identities);
    assert kept + ([rules[i]] + rest) == (kept + [rules[i]]) + rest;
    assert [] + rest == rest;
  }

  lemma AppendDrawn(nodes: seq<RuleNode?>, i: nat, merged: seq<RuleNode?>, footprint: set<RuleNode>)
    requires i < |nodes| && Rooted(nodes, footprint) && Forest(nodes, footprint)
    requires Drawn(merged, nodes[..i], footprint)
    ensures Drawn(merged, nodes[..i + 1], footprint) && Drawn(merged + [nodes[i]], nodes[..i + 1], footprint)
    ensures Values(merged + [nodes[i]], footprint) == Values(merged, footprint) + [ValueOf(nodes[i])]
  {
    assert nodes[i] in nodes;
    forall k | 0 <= k < |merged| && merged[k] != null && nodes[i] != null ensures merged[k].Repr !! nodes[i].Repr {
      assert merged[k] in nodes[..i];
      var j :| 0 <= j < i && nodes[j] == merged[k];
    }
  }

  /* sort.SliceStable. */

  // A node that shares nothing with the others.
  ghost predicate Apart(node: RuleNode?, nodes: seq<RuleNode?>)
    reads node, set c: RuleNode | c in nodes
  {
    node != null ==> forall c | c in nodes && c != null :: c.Repr !! node.Repr
  }

  lemma Prepend(node: RuleNode?, nodes: seq<RuleNode?>, footprint: set<RuleNode>)
    requires Rooted([node], footprint) && Forest([node], footprint)
    requires Rooted(nodes, footprint) && Forest(nodes, footprint) && Apart(node, nodes)
    ensures Rooted([node] + nodes, footprint) && Forest([node] + nodes, footprint)
    ensures Values([node] + nodes, footprint) == [ValueOf(node)] + Values(nodes, footprint)
  {
    var all := [node] + nodes;
    assert node in [node];
    forall k | 1 <= k < |all| ensures all[k] == nodes[k - 1] && all[k] in nodes {
    }
    assert Rooted(all, footprint);
  }

  lemma Decompose(nodes: seq<RuleNode?>, footprint: set<RuleNode>)
    requires nodes != [] && Rooted(nodes, footprint) && Forest(nodes, footprint)
    ensures Rooted([nodes[0]], footprint) && Forest([nodes[0]], footprint)
    ensures Rooted(nodes[1..], footprint) && Forest(nodes[1..], footprint) && Apart(nodes[0], nodes[1..])
    ensures Values(nodes, footprint) == [ValueOf(nodes[0])] + Values(nodes[1..], footprint)
  {
    assert nodes[0] in nodes;
    forall k | 0 <= k < |nodes[1..]| ensures nodes[1..][k] == nodes[k + 1] {
    }
  }

  method InsertRule(w: Wire, node: RuleNode?, nodes: seq<RuleNode?>, ghost footprint: set<RuleNode>)
    returns (sorted: seq<RuleNode?>)
    requires Rooted([node], footprint) && Forest([node], footprint)
    requires Rooted(nodes, footprint) && Forest(nodes, footprint) && Apart(node, nodes)
    ensures forall c :: c in sorted <==> c == node || c in nodes
    ensures Rooted(sorted, footprint) && Forest(sorted, footprint)
    ensures Values(sorted, footprint) == InsertBy(w.ruleKey, ValueOf(node), Values(nodes, footprint))
  {
    Prepend(node, nodes, footprint);
    if nodes == [] { return [node]; }
    Decompose(nodes, footprint);
    var rules := Values(nodes, footprint);
    assert rules[0] == ValueOf(nodes[0]) && rules[1..] == Values(nodes[1..], footprint);
    if !Less(w.ruleKey(rules[0]), w.ruleKey(ValueOf(node))) { return [node] + nodes; }
    sorted := InsertRule(w, node, nodes[1..], footprint);
    assert nodes == [nodes[0]] + nodes[1..];
    Prepend(nodes[0], sorted, footprint);
    sorted := [nodes[0]] + sorted;
  }

  method SortRules(w: Wire, nodes: seq<RuleNode?>, ghost footprint: set<RuleNode>) returns (sorted: seq<RuleNode?>)
    requires Rooted(nodes, footprint) && Forest(nodes, footprint)
    ensures forall c :: c in sorted <==> c in nodes
    ensures Rooted(sorted, footprint) && Forest(sorted, footprint)
    ensures Values(sorted, footprint) == SortBy(w.ruleKey, Values(nodes, footprint))
  {
    if nodes == [] { return []; }
    Decompose(nodes, footprint);
    sorted := SortRules(w, nodes[1..], footprint);
    assert nodes == [nodes[0]] + nodes[1..];
    sorted := InsertRule(w, nodes[0], sorted, footprint);
  }

  /* normalizeImplicitMeta. */

  lemma NormalizeAllStep(w: Wire, sources: seq<Policy>, rules: seq<Rule>, i: nat, identities: seq<Principal>)
    requires i < |sources| == |rules| && AllInRange(rules, |identities|)
    requires NormalizeAll(w, sources[..i], rules[..i], identities).Ok?
    ensures var next := Normalize(w, sources[i], rules[i], identities);
            var done := NormalizeAll(w, sources[..i], rules[..i], identities).value;
            if next.Ok? then NormalizeAll(w, sources[..i + 1], rules[..i + 1], identities) == Ok(done + [next.value])
            else NormalizeAll(w, sources, rules, identities) == Err(next.error)
  {
    var p, r := [sources[i]], [rules[i]];
    assert sources[..i + 1] == sources[..i] + p && rules[..i + 1] == rules[..i] + r;
    assert sources == sources[..i + 1] + sources[i + 1..] && rules == rules[..i + 1] + rules[i + 1..];
    assert p[1..] == [] && r[1..] == [];
    var next := Normalize(w, sources[i], rules[i], identities);
    assert next.Ok? ==> [next.value] + [] == [next.value];
    assert NormalizeAll(w, p, r, identities) == if next.Ok? then Ok([next.value]) else Err(next.error);
    NormalizeAllSplit(w, sources[..i], p, rules[..i], r, identities);
    NormalizeAllSplit(w, sources[..i + 1], sources[i + 1..], rules[..i + 1], rules[i + 1..], identities);
  }

  // Rewrites the rule in place; the rule stays a tree inside its old footprint.
  method NormalizeRule(w: Wire, source: Policy, node: RuleNode, identities: seq<Principal>)
    returns (err: Option<PolicyError>)
    requires node.Acyclic() && node.IsTree() && InRange(node.Value(), |identities|)
    modifies node.Repr
    ensures node.Repr == old(node.Repr) && node.Acyclic() && node.IsTree()
    ensures Agrees(Normalize(w, source, old(node.Value()), identities), err, node.Value())
    decreases source, 2
  {
    if !source.ImplicitMeta? { return None; }
    if !node.kind.NOutOfNode? || |node.rules| != |source.subPolicies| { return Some(SubpolicyCountChanged); }
    err := NormalizeChildren(w, source, node.rules, node.Repr - {node}, identities);
    if err.Some? { return; }
    err := FinishRule(w, node, identities);
  }

  method NormalizeChildren(w: Wire, source: Policy, nodes: seq<RuleNode?>, ghost footprint: set<RuleNode>,
                           identities: seq<Principal>)
    returns (err: Option<PolicyError>)
    requires source.ImplicitMeta? && |source.subPolicies| == |nodes|
    requires Rooted(nodes, footprint) && Forest(nodes, footprint)
    requires AllInRange(Values(nodes, footprint), |identities|)
    modifies footprint
    ensures Rooted(nodes, footprint) && Forest(nodes, footprint)
    ensures AgreesAll(NormalizeAll(w, source.subPolicies, old(Values(nodes, footprint)), identities), err,
                      Values(nodes, footprint))
    decreases source, 1
  {
    hide DoneUpTo, Normalize;
    ghost var before := Values(nodes, footprint);
    ChildrenStart(w, source.subPolicies, before, identities);
    for i := 0 to |nodes|
      invariant Rooted(nodes, footprint) && Forest(nodes, footprint)
      invariant DoneUpTo(w, source.subPolicies, before, Values(nodes, footprint), i, identities)
    {
      ghost var values := Values(nodes, footprint);
      ChildReady(w, source.subPolicies, before, values, i, identities);
      err := NormalizeChild(w, source.subPolicies[i], nodes, i, footprint, identities);
      ChildDone(w, source.subPolicies, before, values, Values(nodes, footprint), i, identities, err);
      if err.Some? { return; }
    }
    ChildrenDone(w, source.subPolicies, before, Values(nodes, footprint), identities);
    err := None;
  }

  // The first `i` rules are normalized, and the others are as they were.
  predicate DoneUpTo(w: Wire, sources: seq<Policy>, before: seq<Rule>, values: seq<Rule>, i: nat,
                     identities: seq<Principal>)
  {
    && i <= |before| == |sources| == |values| && AllInRange(before, |identities|) && values[i..] == before[i..]
    && NormalizeAll(w, sources[..i], before[..i], identities) == Ok(values[..i])
  }

  lemma ChildrenStart(w: Wire, sources: seq<Policy>, before: seq<Rule>, identities: seq<Principal>)
    requires |sources| == |before| && AllInRange(before, |identities|)
    ensures DoneUpTo(w, sources, before, before, 0, identities)
  {
  }

  lemma ChildrenDone(w: Wire, sources: seq<Policy>, before: seq<Rule>, values: seq<Rule>, identities: seq<Principal>)
    requires DoneUpTo(w, sources, before, values, |before|, identities)
    ensures |sources| == |before| && AllInRange(before, |identities|)
    ensures NormalizeAll(w, sources, before, identities) == Ok(values)
  {
    hide Normalize;
    assert before[..|before|] == before && sources[..|before|] == sources && values[..|before|] == values;
  }

  lemma ChildReady(w: Wire, sources: seq<Policy>, before: seq<Rule>, values: seq<Rule>, i: nat,
                   identities: seq<Principal>)
    requires i < |values| && DoneUpTo(w, sources, before, values, i, identities)
    ensures |sources| == |before| == |values| && values[i] == before[i] && InRange(values[i], |identities|)
  {
    hide Normalize;
    assert values[i..][0] == before[i..][0];
  }

  lemma ChildDone(w: Wire, sources: seq<Policy>, before: seq<Rule>, values: seq<Rule>, next: seq<Rule>, i: nat,
                  identities: seq<Principal>, err: Option<PolicyError>)
    requires i < |sources| == |before| == |values| == |next| && DoneUpTo(w, sources, before, values, i, identities)
    requires AllInRange(before, |identities|) && next == values[i := next[i]]
    requires Agrees(Normalize(w, sources[i], before[i], identities), err, next[i])
    ensures err.None? ==> DoneUpTo(w, sources, before, next, i + 1, identities)
    ensures err.Some? ==> NormalizeAll(w, sources, before, identities) == Err(err.value)
  {
    hide Normalize;
    NormalizeAllStep(w, sources, before, i, identities);
    SuffixStep(before, values, next, i);
  }

  method NormalizeChild(w: Wire, source: Policy, nodes: seq<RuleNode?>, i: nat, ghost footprint: set<RuleNode>,
                        identities: seq<Principal>)
    returns (err: Option<PolicyError>)
    requires i < |nodes| && Rooted(nodes, footprint) && Forest(nodes, footprint)
    requires InRange(Values(nodes, footprint)[i], |identities|)
    modifies footprint
    ensures Rooted(nodes, footprint) && Forest(nodes, footprint)
    ensures Values(nodes, footprint) == old(Values(nodes, footprint))[i := Values(nodes, footprint)[i]]
    ensures Agrees(Normalize(w, source, old(Values(nodes, footprint))[i], identities), err, Values(nodes, footprint)[i])
    decreases source, 3
  {
    hide Rooted, Forest, Values, Normalize, RuleNode.Acyclic, RuleNode.IsTree, RuleNode.Value;
    var child := nodes[i];
    assert child != null;
    ForestParts(nodes, footprint);
    err := NormalizeRule(w, source, child, identities);
    ForestWhole(nodes, footprint);
  }

  // The part after the recursion: merge, fix the threshold, collapse or close the boundary.
  method FinishRule(w: Wire, node: RuleNode, identities: seq<Principal>) returns (err: Option<PolicyError>)
    requires node.Acyclic() && node.IsTree() && node.kind.NOutOfNode?
    requires AllInRange(node.Value().rules, |identities|)
    modifies node
    ensures node.Repr == old(node.Repr) && node.Acyclic() && node.IsTree()
    ensures Agrees(Finish(w, old(node.n), old(node.Value()).rules, identities), err, node.Value())
  {
    var all := node.n == |node.rules|;
    if all || node.n == 1 {
      MergeRule(node, all, identities);
      if |node.rules| == 1 {
        assert InRange(node.Value().rules[0], |identities|);
        Collapse(node);
        return None;
      }
    }
    err := CloseRule(w, node, identities);
  }

  method MergeRule(node: RuleNode, all: bool, identities: seq<Principal>)
    requires node.Acyclic() && node.IsTree() && node.kind.NOutOfNode?
    requires AllInRange(node.Value().rules, |identities|)
    modifies node
    ensures node.Repr == old(node.Repr) && node.Acyclic() && node.IsTree() && node.kind.NOutOfNode?
    ensures var merged := Merge(old(node.Value()).rules, 0, all, identities);
            AllInRange(merged, |identities|) && node.Value() == NOutOf(if all then |merged| else old(node.n), merged)
  {
    ghost var footprint := node.Repr - {node};
    ghost var rules := Values(node.rules, footprint);
    assert node.Value() == NOutOf(node.n, rules);
    MergeInRange(rules, all, identities);
    var merged := MergeBranches(node.rules, footprint, all, identities);
    SetRules(node, merged, if all then |merged| else node.n);
  }

  method SetRules(node: RuleNode, rules: seq<RuleNode?>, n: int)
    requires node.Acyclic() && node.kind.NOutOfNode?
    requires Rooted(rules, node.Repr - {node}) && Forest(rules, node.Repr - {node})
    modifies node
    ensures node.Repr == old(node.Repr) && node.Acyclic() && node.IsTree() && node.kind.NOutOfNode?
    ensures node.Value() == NOutOf(n, old(Values(rules, node.Repr - {node})))
  {
    ghost var footprint := node.Repr - {node};
    node.rules, node.n := rules, n;
    WrapNode(node, footprint);
  }

  lemma MergeInRange(rules: seq<Rule>, all: bool, identities: seq<Principal>)
    requires AllInRange(rules, |identities|)
    ensures AllInRange(Merge(rules, 0, all, identities), |identities|)
  {
    MergeElements(rules, 0, all, identities);
  }

  // The only branch of a rule.
  lemma OnlyBranch(node: RuleNode, only: RuleNode, footprint: set<RuleNode>)
    requires node.Acyclic() && node.IsTree() && node.kind.NOutOfNode? && node.rules == [only]
    requires footprint == node.Repr - {node}
    ensures node.Repr == {node} + footprint && only in footprint && Rooted(only.rules, footprint)
            && Forest(only.rules, footprint)
    ensures node.Value().rules[0] == match only.kind
                                     case SignedByNode => SignedBy(only.signedBy)
                                     case NOutOfNode => NOutOf(only.n, Values(only.rules, footprint))
                                     case NilThresholdNode => NilThreshold
                                     case UnsetNode => UnsetRule
  {
    assert only in node.rules && only in footprint && only.Repr <= footprint;
    assert only.Acyclic() && only.IsTree();
    assert Rooted(only.rules, only.Repr - {only}) && Forest(only.rules, only.Repr - {only});
    assert Values(only.rules, footprint) == Values(only.rules, only.Repr - {only});
    assert Values(node.rules, footprint)[0] == only.Value();
  }

  // rule.Type = rules[0].Type
  method Collapse(node: RuleNode)
    requires node.Acyclic() && node.IsTree() && node.kind.NOutOfNode? && |node.rules| == 1 && node.rules[0] != null
    modifies node
    ensures node.Repr == old(node.Repr) && node.Acyclic() && node.IsTree()
    ensures node.Value() == old(node.Value()).rules[0]
  {
    hide Rooted, Forest, Values, RuleNode.Acyclic, RuleNode.IsTree, RuleNode.Value;
    var only := node.rules[0];
    ghost var footprint := node.Repr - {node};
    OnlyBranch(node, only, footprint);
    node.kind, node.signedBy, node.n, node.rules := only.kind, only.signedBy, only.n, only.rules;
    WrapNode(node, footprint);
  }

  method CloseRule(w: Wire, node: RuleNode, identities: seq<Principal>) returns (err: Option<PolicyError>)
    requires node.Acyclic() && node.IsTree() && node.kind.NOutOfNode?
    requires AllInRange(node.Value().rules, |identities|)
    modifies node
    ensures node.Repr == old(node.Repr) && node.Acyclic() && node.IsTree()
    ensures Agrees(CloseBoundary(w, old(node.n), old(node.Value()).rules, identities), err, node.Value())
  {
    ghost var footprint := node.Repr - {node};
    assert node.Value() == NOutOf(node.n, Values(node.rules, footprint));
    var independent := IndependentRules(Values(node.rules, footprint), identities);
    if !independent { return Some(OverlappingBranches); }
    var sorted := SortRules(w, node.rules, footprint);
    SetRules(node, sorted, node.n);
    return None;
  }

  /* resolvePolicy for a policy reference. */

  // proto.Unmarshal: a fresh tree.
  method Unmarshal(rule: Rule) returns (node: RuleNode?)
    ensures node == null <==> rule == NilRule
    ensures node != null ==> fresh(node.Repr) && node.Acyclic() && node.IsTree()
    ensures ValueOf(node) == rule
    decreases rule, 0
  {
    match rule
    case NilRule => node := null;
    case SignedBy(i) => node := new RuleNode(SignedByNode, i, 0); WrapNode(node, {});
    case NilThreshold => node := new RuleNode(NilThresholdNode, 0, 0); WrapNode(node, {});
    case UnsetRule => node := new RuleNode(UnsetNode, 0, 0); WrapNode(node, {});
    case NOutOf(n, rules) =>
      var children, footprint := UnmarshalAll(rules);
      node := new RuleNode(NOutOfNode, 0, n);
      node.rules, node.Repr := children, {node} + footprint;
      WrapNode(node, footprint);
  }

  method UnmarshalAll(rules: seq<Rule>) returns (nodes: seq<RuleNode?>, ghost footprint: set<RuleNode>)
    ensures fresh(footprint) && Rooted(nodes, footprint) && Forest(nodes, footprint)
    ensures Values(nodes, footprint) == rules
    decreases rules, 1
  {
    if rules == [] { return [], {}; }
    var head := Unmarshal(rules[0]);
    var tail, rest := UnmarshalAll(rules[1..]);
    PrependForest(head, tail, rest);
    nodes, footprint := [head] + tail, rest + if head == null then {} else head.Repr;
  }

  // Canonicalize what Convert returned, then normalize it along the channel policy. Nothing the
  // caller holds is in the frame, so the channel's own policy stays as it was.
  method ResolveReference(w: Wire, policy: Policy, converted: EnvelopeNode) returns (r: Result<Envelope, PolicyError>)
    requires Faithful(w) && converted.Acyclic()
    ensures r == ResolveConverted(w, policy, converted.Value())
  {
    CanonicalPreserves(w, converted.Value());
    var canonical := MakeCanonical(w, converted);
    if canonical.Err? { return canonical; }
    var node := Unmarshal(canonical.value.rule);
    var err := NormalizeRule(w, policy, node, canonical.value.identities);
    if err.Some? { return Err(err.value); }
    return Ok(Envelope(canonical.value.version, node.Value(), canonical.value.identities));
  }
}
