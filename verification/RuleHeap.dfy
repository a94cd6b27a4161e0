/** The policy rewriting of config.go on mutable rule objects, proved against its value form. */
module RuleHeap {
  import opened Prelude
  import opened SignaturePolicy
  import opened CanonicalPolicy

  datatype NodeKind = SignedByNode | NOutOfNode | NilThresholdNode | UnsetNode

  // A signature policy rule. Children may be nil and, before cloning, shared.
  class RuleNode {
    var kind: NodeKind
    var signedBy: int
    var n: int
    var rules: seq<RuleNode?>
    ghost var Repr: set<RuleNode>

    constructor (kind: NodeKind, signedBy: int, n: int)
      ensures this.kind == kind && this.signedBy == signedBy && this.n == n
      ensures rules == [] && Repr == {this}
    {
      this.kind, this.signedBy, this.n, rules := kind, signedBy, n, [];
      Repr := {this};
    }

    // No rule contains itself.
    ghost predicate Acyclic()
      reads this, Repr
      decreases Repr, 0
    {
      this in Repr && Rooted(rules, Repr - {this})
    }

    // No rule is shared.
    ghost predicate IsTree()
      reads this, Repr
      requires Acyclic()
      decreases Repr, 0
    {
      Forest(rules, Repr - {this})
    }

    function Value(): Rule
      reads this, Repr
      requires Acyclic()
      decreases Repr, 0
    {
      match kind
      case SignedByNode => SignedBy(signedBy)
      case NOutOfNode => NOutOf(n, Values(rules, Repr - {this}))
      case NilThresholdNode => NilThreshold
      case UnsetNode => UnsetRule
    }
  }

  // The rules live in the footprint.
  ghost predicate Rooted(nodes: seq<RuleNode?>, footprint: set<RuleNode>)
    reads footprint
    decreases footprint, 1
  {
    forall c | c in nodes && c != null :: c in footprint && c.Repr <= footprint && c.Acyclic()
  }

  // The rules share nothing.
  ghost predicate Forest(nodes: seq<RuleNode?>, footprint: set<RuleNode>)
    reads footprint
    requires Rooted(nodes, footprint)
    decreases footprint, 1
  {
    && (forall c | c in nodes && c != null :: c.IsTree())
    && (forall i, j | 0 <= i < j < |nodes| && nodes[i] != null && nodes[j] != null :: nodes[i].Repr !! nodes[j].Repr)
  }

  function ValueOf(node: RuleNode?): Rule
    reads node, if node == null then {} else node.Repr
    requires node != null ==> node.Acyclic()
    decreases if node == null then {} else node.Repr, 1
  {
    if node == null then NilRule else node.Value()
  }

  function Values(nodes: seq<RuleNode?>, ghost footprint: set<RuleNode>): (values: seq<Rule>)
    reads footprint
    requires Rooted(nodes, footprint)
    ensures |values| == |nodes|
    ensures forall i :: 0 <= i < |nodes| ==> values[i] == ValueOf(nodes[i])
    decreases footprint, 2 + |nodes|
  {
    if nodes == [] then []
    else [ValueOf(nodes[0])] + Values(nodes[1..], footprint)
  }

  // proto.Clone: a copy that shares nothing with the original or within itself.
  method CloneRule(node: RuleNode?) returns (copy: RuleNode?)
    requires node != null ==> node.Acyclic()
    ensures copy == null <==> node == null
    ensures copy != null ==> fresh(copy.Repr) && copy.Acyclic() && copy.IsTree()
    ensures ValueOf(copy) == ValueOf(node)
    decreases if node == null then {} else node.Repr, 1
  {
    hide Rooted, Forest, Values, RuleNode.IsTree;
    if node == null { return null; }
    ghost var footprint;
    ghost var value := node.Value();
    copy := new RuleNode(node.kind, node.signedBy, node.n);
    copy.rules, footprint := CloneAll(node.rules, node.Repr - {node});
    copy.Repr := {copy} + footprint;
    WrapNode(copy, footprint);
  }

  // A rule over a forest that does not hold it is a tree.
  lemma WrapNode(node: RuleNode, footprint: set<RuleNode>)
    requires node !in footprint && node.Repr == {node} + footprint
    requires Rooted(node.rules, footprint) && Forest(node.rules, footprint)
    ensures node.Acyclic() && node.IsTree()
    ensures node.Value() == match node.kind
                            case SignedByNode => SignedBy(node.signedBy)
                            case NOutOfNode => NOutOf(node.n, Values(node.rules, footprint))
                            case NilThresholdNode => NilThreshold
                            case UnsetNode => UnsetRule
  {
    assert node.Repr - {node} == footprint;
  }

  method CloneAll(nodes: seq<RuleNode?>, ghost footprint: set<RuleNode>)
    returns (copies: seq<RuleNode?>, ghost added: set<RuleNode>)
    requires Rooted(nodes, footprint)
    ensures fresh(added) && Rooted(copies, added) && Forest(copies, added)
    ensures Values(copies, added) == Values(nodes, footprint)
    decreases footprint, 2 + |nodes|
  {
    hide Forest, RuleNode.IsTree, RuleNode.Value;
    if nodes == [] {
      NoForest();
      return [], {};
    }
    var head := CloneRule(nodes[0]);
    var tail, rest := CloneAll(nodes[1..], footprint);
    PrependForest(head, tail, rest);
    copies := [head] + tail;
    added := rest + if head == null then {} else head.Repr;
  }

  lemma NoForest()
    ensures Rooted([], {}) && Forest([], {})
  {
  }

  lemma PrependForest(head: RuleNode?, tail: seq<RuleNode?>, footprint: set<RuleNode>)
    requires Rooted(tail, footprint) && Forest(tail, footprint)
    requires head != null ==> head.Acyclic() && head.IsTree() && head.Repr !! footprint
    ensures var whole := footprint + if head == null then {} else head.Repr;
            && Rooted([head] + tail, whole) && Forest([head] + tail, whole)
            && Values([head] + tail, whole) == [ValueOf(head)] + Values(tail, footprint)
  {
    var nodes := [head] + tail;
    assert forall c :: c in nodes <==> c == head || c in tail;
    assert forall k :: 1 <= k < |nodes| ==> nodes[k] == tail[k - 1] && nodes[k] in tail;
  }

  // The error a method reports and the rule it leaves behind, against the value form.
  predicate Agrees(spec: Result<Rule, PolicyError>, err: Option<PolicyError>, value: Rule) {
    match spec
    case Ok(v) => err.None? && value == v
    case Err(e) => err == Some(e)
  }

  predicate AgreesAll(spec: Result<seq<Rule>, PolicyError>, err: Option<PolicyError>, values: seq<Rule>) {
    match spec
    case Ok(v) => err.None? && values == v
    case Err(e) => err == Some(e)
  }

  /* canonicalPolicy. */

  // The index of the canonical position of each old principal.
  ghost predicate Linked(ids: seq<Bytes>, index: map<Bytes, int>, source: seq<Principal>, target: seq<Principal>) {
    && |ids| == |source| && Elements(source) <= Elements(target)
    && forall i :: 0 <= i < |ids| ==>
         source[i] in Elements(target) && ids[i] in index && index[ids[i]] == IndexOf(source[i], target)
  }

  lemma {:induction false} ReindexAllSplit(a: seq<Rule>, b: seq<Rule>, source: seq<Principal>, target: seq<Principal>)
    requires Elements(source) <= Elements(target)
    ensures var left, right := ReindexAll(a, source, target), ReindexAll(b, source, target);
            ReindexAll(a + b, source, target)
            == if left.Err? then left else if right.Err? then right else Ok(left.value + right.value)
  {
    if a == [] {
      assert a + b == b;
      if ReindexAll(b, source, target).Ok? {
        assert [] + ReindexAll(b, source, target).value == ReindexAll(b, source, target).value;
      }
    } else {
      assert (a + b)[1..] == a[1..] + b;
      ReindexAllSplit(a[1..], b, source, target);
      var head := Reindex(a[0], source, target);
      var tail, right := ReindexAll(a[1..], source, target), ReindexAll(b, source, target);
      if head.Ok? && tail.Ok? && right.Ok? {
        assert [head.value] + (tail.value + right.value) == ([head.value] + tail.value) + right.value;
      }
    }
  }

  // One more child: the outcome on a prefix extended by its next rule.
  lemma ReindexAllStep(rules: seq<Rule>, i: nat, source: seq<Principal>, target: seq<Principal>)
    requires i < |rules| && Elements(source) <= Elements(target)
    requires ReindexAll(rules[..i], source, target).Ok?
    ensures var next := Reindex(rules[i], source, target);
            var done := ReindexAll(rules[..i], source, target).value;
            if next.Ok? then ReindexAll(rules[..i + 1], source, target) == Ok(done + [next.value])
            else ReindexAll(rules, source, target) == Err(next.error)
  {
    assert rules[..i + 1] == rules[..i] + [rules[i]];
    assert rules == rules[..i + 1] + rules[i + 1..];
    var one := [rules[i]];
    assert one[1..] == [] && ReindexAll(one[1..], source, target) == Ok([]);
    var next := Reindex(rules[i], source, target);
    assert next.Ok? ==> [next.value] + [] == [next.value];
    assert ReindexAll(one, source, target) == if next.Ok? then Ok([next.value]) else Err(next.error);
    ReindexAllSplit(rules[..i], one, source, target);
    ReindexAllSplit(rules[..i + 1], rules[i + 1..], source, target);
  }

  // The `normalize` closure: rewrite every leaf index in place.
  method ReindexRule(node: RuleNode?, ids: seq<Bytes>, index: map<Bytes, int>,
                     ghost source: seq<Principal>, ghost target: seq<Principal>)
    returns (err: Option<PolicyError>)
    requires Linked(ids, index, source, target)
    requires node != null ==> node.Acyclic() && node.IsTree()
    modifies if node == null then {} else node.Repr
    ensures node != null ==> node.Repr == old(node.Repr) && node.Acyclic() && node.IsTree()
    ensures Agrees(Reindex(old(ValueOf(node)), source, target), err, ValueOf(node))
    decreases if node == null then {} else node.Repr, 1
  {
    if node == null { return Some(MissingRule); }
    ghost var value := ValueOf(node);
    assert value == node.Value();
    if node.kind.UnsetNode? { return Some(UnsupportedRule); }
    if node.kind.SignedByNode? {
      if node.signedBy < 0 || node.signedBy >= |ids| { return Some(UnknownPrincipal); }
      node.signedBy := index[ids[node.signedBy]];
      return None;
    }
    if node.kind.NilThresholdNode? || node.n < 0 || node.n > |node.rules| { return Some(InvalidThreshold); }
    err := ReindexChildren(node.rules, node.Repr - {node}, ids, index, source, target);
  }

  method ReindexChildren(nodes: seq<RuleNode?>, ghost footprint: set<RuleNode>, ids: seq<Bytes>,
                         index: map<Bytes, int>, ghost source: seq<Principal>, ghost target: seq<Principal>)
    returns (err: Option<PolicyError>)
    requires Linked(ids, index, source, target)
    requires Rooted(nodes, footprint) && Forest(nodes, footprint)
    modifies footprint
    ensures Rooted(nodes, footprint) && Forest(nodes, footprint)
    ensures AgreesAll(ReindexAll(old(Values(nodes, footprint)), source, target), err, Values(nodes, footprint))
    decreases footprint, 3
  {
    hide Forest, Reindex, RuleNode.IsTree, RuleNode.Acyclic, RuleNode.Value;
    NoneReindexed(source, target);
    ghost var before := Values(nodes, footprint);
    for i := 0 to |nodes|
      invariant Rooted(nodes, footprint) && Forest(nodes, footprint)
      invariant Values(nodes, footprint)[i..] == before[i..]
      invariant ReindexAll(before[..i], source, target) == Ok(Values(nodes, footprint)[..i])
    {
      ghost var values := Values(nodes, footprint);
      ReindexAllStep(before, i, source, target);
      assert values[i] == before[i] by { assert values[i..][0] == before[i..][0]; }
      err := ReindexChild(nodes, i, footprint, ids, index, source, target);
      if err.Some? { return; }
      SuffixStep(before, values, Values(nodes, footprint), i);
    }
    assert before[..|before|] == before;
    err := None;
  }

  lemma NoneReindexed(source: seq<Principal>, target: seq<Principal>)
    requires Elements(source) <= Elements(target)
    ensures ReindexAll([], source, target) == Ok([])
  {
  }

  lemma SuffixStep(before: seq<Rule>, values: seq<Rule>, after: seq<Rule>, i: nat)
    requires i < |before| == |values| == |after| && values[i..] == before[i..] && after == values[i := after[i]]
    ensures after[i + 1..] == before[i + 1..] && after[..i + 1] == values[..i] + [after[i]]
  {
    assert after[i + 1..] == values[i..][1..] == before[i..][1..];
  }

  // The rules of a forest one by one.
  ghost predicate Part(node: RuleNode, footprint: set<RuleNode>)
    reads footprint
  {
    node in footprint && node.Repr <= footprint && node in node.Repr && node.Acyclic() && node.IsTree()
  }

  lemma ForestParts(nodes: seq<RuleNode?>, footprint: set<RuleNode>)
    requires Rooted(nodes, footprint) && Forest(nodes, footprint)
    ensures forall k | 0 <= k < |nodes| && nodes[k] != null :: Part(nodes[k], footprint)
    ensures forall j, k | 0 <= j < |nodes| && 0 <= k < |nodes| && j != k && nodes[j] != null && nodes[k] != null ::
              nodes[j].Repr !! nodes[k].Repr
  {
    forall k | 0 <= k < |nodes| && nodes[k] != null ensures Part(nodes[k], footprint) { assert nodes[k] in nodes; }
  }

  lemma ForestWhole(nodes: seq<RuleNode?>, footprint: set<RuleNode>)
    requires forall k | 0 <= k < |nodes| && nodes[k] != null :: Part(nodes[k], footprint)
    requires forall j, k | 0 <= j < k < |nodes| && nodes[j] != null && nodes[k] != null ::
               nodes[j].Repr !! nodes[k].Repr
    ensures Rooted(nodes, footprint) && Forest(nodes, footprint)
  {
    forall c: RuleNode? | c in nodes && c != null ensures Part(c, footprint) {
      var k :| 0 <= k < |nodes| && nodes[k] == c;
    }
  }

  method ReindexChild(nodes: seq<RuleNode?>, i: nat, ghost footprint: set<RuleNode>, ids: seq<Bytes>,
                      index: map<Bytes, int>, ghost source: seq<Principal>, ghost target: seq<Principal>)
    returns (err: Option<PolicyError>)
    requires Linked(ids, index, source, target) && i < |nodes|
    requires Rooted(nodes, footprint) && Forest(nodes, footprint)
    modifies footprint
    ensures Rooted(nodes, footprint) && Forest(nodes, footprint)
    ensures Values(nodes, footprint) == old(Values(nodes, footprint))[i := Values(nodes, footprint)[i]]
    ensures Agrees(Reindex(old(Values(nodes, footprint))[i], source, target), err, Values(nodes, footprint)[i])
    decreases footprint, 2
  {
    hide Rooted, Forest, Values, Reindex, RuleNode.Acyclic, RuleNode.IsTree, RuleNode.Value;
    var child := nodes[i];
    ForestParts(nodes, footprint);
    err := ReindexRule(child, ids, index, source, target);
    if child != null { ForestWhole(nodes, footprint); }
  }

  class EnvelopeNode {
    var version: int
    var rule: RuleNode?
    var identities: seq<Principal>

    ghost predicate Acyclic()
      reads this, rule, if rule == null then {} else rule.Repr
    {
      rule != null ==> rule.Acyclic()
    }

    ghost function Value(): Envelope
      reads this, rule, if rule == null then {} else rule.Repr
      requires Acyclic()
    {
      Envelope(version, ValueOf(rule), identities)
    }
  }

  // The keys of the principals read so far, and one principal for each key.
  ghost predicate Collected(w: Wire, source: seq<Principal>, ids: seq<Bytes>, identities: map<Bytes, Principal>) {
    && |ids| == |source|
    && (forall k :: 0 <= k < |ids| ==> ids[k] == w.principalKey(source[k]) && ids[k] in identities)
    && (forall k :: k in identities ==> identities[k] in source && w.principalKey(identities[k]) == k)
  }

  // The principals placed so far, in key order, and their positions.
  ghost predicate Placed(keys: seq<Bytes>, identities: map<Bytes, Principal>, target: seq<Principal>,
                         index: map<Bytes, int>)
  {
    && |target| == |keys|
    && (forall k :: 0 <= k < |keys| ==> keys[k] in identities && target[k] == identities[keys[k]])
    && (forall k :: 0 <= k < |keys| ==> keys[k] in index && index[keys[k]] == k)
  }

  // canonicalPolicy. The caller's policy is not in the frame: only the clone is rewritten.
  method MakeCanonical(w: Wire, original: EnvelopeNode) returns (r: Result<Envelope, PolicyError>)
    requires Faithful(w) && original.Acyclic()
    ensures r == Canonical(w, original.Value())
  {
    var rule := CloneRule(original.rule);
    var ok, ids, index, target := IndexPrincipals(w, original.identities);
    if !ok { return Err(NilPrincipalError); }
    var err := ReindexRule(rule, ids, index, original.identities, target);
    if err.Some? { return Err(err.value); }
    return Ok(Envelope(original.version, ValueOf(rule), target));
  }

  // The principal keys in their old order, the position of each key, and the principals in place.
  method IndexPrincipals(w: Wire, source: seq<Principal>)
    returns (ok: bool, ids: seq<Bytes>, index: map<Bytes, int>, target: seq<Principal>)
    requires Faithful(w)
    ensures ok <==> NilPrincipal !in source
    ensures ok ==> target == DistinctPrincipals(w, source) && Linked(ids, index, source, target)
  {
    var identities;
    ok, ids, identities := CollectPrincipals(w, source);
    index, target := PlacePrincipals(identities);
    if ok {
      ghost var keys :| StrictlySorted(Itself, keys) && Elements(keys) == identities.Keys
                        && Placed(keys, identities, target, index);
      TargetIsDistinct(w, source, keys, ids, identities, target, index);
      TargetIsLinked(w, source, keys, ids, identities, target, index);
    }
  }

  method CollectPrincipals(w: Wire, source: seq<Principal>)
    returns (ok: bool, ids: seq<Bytes>, identities: map<Bytes, Principal>)
    ensures ok <==> NilPrincipal !in source
    ensures ok ==> Collected(w, source, ids, identities)
  {
    ids, identities := [], map[];
    for i := 0 to |source|
      invariant NilPrincipal !in source[..i] && Collected(w, source[..i], ids, identities)
    {
      if source[i] == NilPrincipal { return false, ids, identities; }
      CollectedStep(w, source, i, ids, identities);
      ids := ids + [w.principalKey(source[i])];
      identities := identities[ids[i] := source[i]];
    }
    assert source[..|source|] == source;
    ok := true;
  }

  lemma CollectedStep(w: Wire, source: seq<Principal>, i: nat, ids: seq<Bytes>, identities: map<Bytes, Principal>)
    requires i < |source| && Collected(w, source[..i], ids, identities)
    ensures var key := w.principalKey(source[i]);
            Collected(w, source[..i + 1], ids + [key], identities[key := source[i]])
    ensures source[i] != NilPrincipal && NilPrincipal !in source[..i] ==> NilPrincipal !in source[..i + 1]
  {
    assert source[..i + 1] == source[..i] + [source[i]];
  }

  method PlacePrincipals(identities: map<Bytes, Principal>) returns (index: map<Bytes, int>, target: seq<Principal>)
    ensures exists keys :: StrictlySorted(Itself, keys) && Elements(keys) == identities.Keys
                           && Placed(keys, identities, target, index)
  {
    var keys := SortedKeys(identities.Keys);
    index, target := map[], [];
    for i := 0 to |keys|
      invariant Placed(keys[..i], identities, target, index)
    {
      assert keys[i] in Elements(keys);
      forall k | 0 <= k < i ensures keys[k] != keys[i] { LessIrreflexive(Itself(keys[k])); }
      index := index[keys[i] := |target|];
      target := target + [identities[keys[i]]];
    }
    assert keys[..|keys|] == keys;
  }

  lemma TargetIsDistinct(w: Wire, source: seq<Principal>, keys: seq<Bytes>, ids: seq<Bytes>,
                         identities: map<Bytes, Principal>, target: seq<Principal>, index: map<Bytes, int>)
    requires Faithful(w) && NilPrincipal !in source && StrictlySorted(Itself, keys) && Elements(keys) == identities.Keys
    requires Collected(w, source, ids, identities) && Placed(keys, identities, target, index)
    ensures target == DistinctPrincipals(w, source)
  {
    DistinctPrincipalsSorted(w, source);
    assert forall k :: 0 <= k < |keys| ==> w.principalKey(target[k]) == Itself(keys[k]);
    assert Elements(target) == Elements(source) by {
      forall p | p in source ensures p in target {
        var i :| 0 <= i < |source| && source[i] == p;
        assert ids[i] in Elements(keys);
        var k :| 0 <= k < |keys| && keys[k] == ids[i];
        assert target[k] == p;
      }
    }
    StrictlySortedUnique(w, target, DistinctPrincipals(w, source));
  }

  lemma TargetIsLinked(w: Wire, source: seq<Principal>, keys: seq<Bytes>, ids: seq<Bytes>,
                       identities: map<Bytes, Principal>, target: seq<Principal>, index: map<Bytes, int>)
    requires Faithful(w) && NilPrincipal !in source && target == DistinctPrincipals(w, source)
    requires Collected(w, source, ids, identities) && Placed(keys, identities, target, index)
    ensures Linked(ids, index, source, target)
  {
    DistinctPrincipalsSorted(w, source);
    forall i | 0 <= i < |ids|
      ensures source[i] in Elements(target) && ids[i] in index && index[ids[i]] == IndexOf(source[i], target)
    {
      assert source[i] in Elements(source);
      assert source[i] in Elements(target);
      var k := IndexOf(source[i], target);
      assert keys[k] == ids[i];
    }
  }
}
