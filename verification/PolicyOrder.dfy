/** Fabric gathers the subpolicies of an implicit-meta policy from a Go map, so their order is
    arbitrary. The converted policy does not depend on it. */
module PolicyOrder {
  import opened Prelude
  import opened SignaturePolicy
  import opened CanonicalPolicy
  import opened ImplicitMeta

  // `q` is `p` with the subpolicies of every implicit-meta policy in it reordered.
  ghost predicate Shuffled(p: Policy, q: Policy) {
    match p
    case ImplicitMeta(threshold, subs) =>
      q.ImplicitMeta? && q.threshold == threshold
      && exists mid: seq<Policy> :: ShuffledAll(subs, mid) && Permutes(mid, q.subPolicies)
    case _ => p == q
  }

  ghost predicate ShuffledAll(ps: seq<Policy>, qs: seq<Policy>) {
    |ps| == |qs| && forall i :: 0 <= i < |ps| ==> Shuffled(ps[i], qs[i])
  }

  ghost predicate Permutes(a: seq<Policy>, b: seq<Policy>) {
    multiset(a) == multiset(b)
  }

  lemma PermutesMembers(a: seq<Policy>, b: seq<Policy>)
    requires Permutes(a, b)
    ensures forall x :: x in a <==> x in b
  {
    assert forall x :: (x in a <==> x in multiset(a)) && (x in b <==> x in multiset(b));
  }

  // Any order of subpolicies, each reordered inside in any way.
  lemma AnyOrderShuffled(n: int, subs: seq<Policy>, inside: seq<Policy>, reordered: seq<Policy>)
    requires |subs| == |inside| && forall i | 0 <= i < |subs| :: Shuffled(subs[i], inside[i])
    requires multiset(inside) == multiset(reordered)
    ensures Shuffled(ImplicitMeta(n, subs), ImplicitMeta(n, reordered))
  {
    assert ShuffledAll(subs, inside) && Permutes(inside, reordered);
  }

  lemma {:induction false} UnmovedShuffled(p: Policy)
    ensures Shuffled(p, p)
  {
    if p.ImplicitMeta? {
      forall i | 0 <= i < |p.subPolicies| ensures Shuffled(p.subPolicies[i], p.subPolicies[i]) {
        UnmovedShuffled(p.subPolicies[i]);
      }
      AnyOrderShuffled(p.threshold, p.subPolicies, p.subPolicies, p.subPolicies);
    }
  }

  /* What shuffling keeps before normalization. */

  predicate TreeThresholds(tree: Tree) {
    tree.Threshold? ==> 0 <= tree.n <= |tree.branches| && forall t | t in tree.branches :: TreeThresholds(t)
  }

  lemma {:induction false} CompiledThresholds(rule: Rule, identities: seq<Principal>)
    requires InRange(rule, |identities|)
    ensures ValidThresholds(rule) <==> TreeThresholds(Compile(rule, identities))
  {
    if rule.NOutOf? {
      var trees := CompileAll(rule.rules, identities);
      forall i | 0 <= i < |trees| ensures ValidThresholds(rule.rules[i]) <==> TreeThresholds(trees[i]) {
        CompiledThresholds(rule.rules[i], identities);
      }
      assert forall i :: 0 <= i < |trees| ==> trees[i] in trees && rule.rules[i] in rule.rules;
    }
  }

  lemma {:induction false} ShuffledKeeps(p: Policy, q: Policy)
    requires Shuffled(p, q) && Convertible(p)
    ensures KeptBy(p, q)
  {
    if p.ImplicitMeta? {
      var ps, qs := p.subPolicies, q.subPolicies;
      var mid :| ShuffledAll(ps, mid) && Permutes(mid, qs);
      forall i | 0 <= i < |ps| ensures KeptBy(ps[i], mid[i]) {
        assert ps[i] in ps;
        ShuffledKeeps(ps[i], mid[i]);
      }
      KeptByAll(p, q, mid);
    }
  }

  ghost predicate KeptBy(p: Policy, q: Policy)
    requires Convertible(p)
  {
    Convertible(q) && Principals(p) == Principals(q)
    && (TreeThresholds(ConvertedTree(p)) <==> TreeThresholds(ConvertedTree(q)))
  }

  predicate AllConvertible(ps: seq<Policy>) {
    forall p | p in ps :: Convertible(p)
  }

  predicate AllThresholds(ps: seq<Policy>)
    requires AllConvertible(ps)
  {
    forall p | p in ps :: TreeThresholds(ConvertedTree(p))
  }

  lemma {:induction false} KeptPairwise(ps: seq<Policy>, qs: seq<Policy>)
    requires |ps| == |qs| && AllConvertible(ps) && forall i :: 0 <= i < |ps| ==> KeptBy(ps[i], qs[i])
    ensures AllConvertible(qs) && PrincipalsAll(ps) == PrincipalsAll(qs)
    ensures AllThresholds(ps) <==> AllThresholds(qs)
  {
    if ps != [] {
      assert ps == [ps[0]] + ps[1..] && qs == [qs[0]] + qs[1..];
      assert KeptBy(ps[0], qs[0]);
      KeptPairwise(ps[1..], qs[1..]);
    }
  }

  lemma {:induction false} PrincipalsWithout(qs: seq<Policy>, k: nat)
    requires k < |qs| && AllConvertible(qs)
    ensures AllConvertible(Without(qs, k))
    ensures PrincipalsAll(qs) == Principals(qs[k]) + PrincipalsAll(Without(qs, k))
  {
    var rest := Without(qs, k);
    assert forall i :: 0 <= i < |rest| ==> rest[i] in qs;
    if k == 0 {
      assert rest == qs[1..];
    } else {
      PrincipalsWithout(qs[1..], k - 1);
      assert rest[1..] == Without(qs[1..], k - 1);
    }
  }

  lemma {:induction false} KeptPermuted(mid: seq<Policy>, qs: seq<Policy>)
    requires Permutes(mid, qs) && AllConvertible(mid)
    ensures AllConvertible(qs) && PrincipalsAll(mid) == PrincipalsAll(qs)
    ensures AllThresholds(mid) <==> AllThresholds(qs)
  {
    PermutesMembers(mid, qs);
    assert |multiset(mid)| == |multiset(qs)|;
    if mid != [] {
      var k := MultisetHead(mid, qs);
      PrincipalsWithout(qs, k);
      KeptPermuted(mid[1..], Without(qs, k));
    }
  }

  lemma KeptByAll(p: Policy, q: Policy, mid: seq<Policy>)
    requires p.ImplicitMeta? && q.ImplicitMeta? && Convertible(p) && p.threshold == q.threshold
    requires |p.subPolicies| == |mid| && Permutes(mid, q.subPolicies)
    requires forall i :: 0 <= i < |mid| ==> KeptBy(p.subPolicies[i], mid[i])
    ensures KeptBy(p, q)
  {
    assert |multiset(mid)| == |multiset(q.subPolicies)|;
    KeptPairwise(p.subPolicies, mid);
    KeptPermuted(mid, q.subPolicies);
    SubThresholds(p.subPolicies);
    SubThresholds(q.subPolicies);
  }

  lemma SubThresholds(subs: seq<Policy>)
    requires AllConvertible(subs)
    ensures (forall t | t in ConvertedTrees(subs) :: TreeThresholds(t)) <==> AllThresholds(subs)
  {
    var trees := ConvertedTrees(subs);
    if AllThresholds(subs) {
      forall i | 0 <= i < |trees| ensures TreeThresholds(trees[i]) { assert subs[i] in subs; }
    }
    if forall t | t in trees :: TreeThresholds(t) {
      forall i | 0 <= i < |subs| ensures TreeThresholds(ConvertedTree(subs[i])) { assert trees[i] in trees; }
    }
  }

  /* Normalization. */

  // Both fail, or both give the same result.
  ghost predicate SameOutcome<T(!new)>(a: Result<T, PolicyError>, b: Result<T, PolicyError>) {
    (a.Err? && b.Err?) || a == b
  }

  // Both fail, or the results are permutations of each other.
  ghost predicate PermutedOutcome(a: Result<seq<Rule>, PolicyError>, b: Result<seq<Rule>, PolicyError>) {
    (a.Err? && b.Err?) || (a.Ok? && b.Ok? && multiset(a.value) == multiset(b.value))
  }

  // Bring the branches of `qs` into the order of `mid`.
  lemma {:induction false} Rearrange(w: Wire, mid: seq<Policy>, qs: seq<Policy>, rules: seq<Rule>,
                                     identities: seq<Principal>) returns (moved: seq<Rule>)
    requires |qs| == |rules| && AllInRange(rules, |identities|) && Permutes(mid, qs)
    requires forall q | q in qs :: Convertible(q)
    requires CompileAll(rules, identities) == ConvertedTrees(qs)
    ensures |moved| == |mid| && AllInRange(moved, |identities|) && forall m | m in mid :: Convertible(m)
    ensures CompileAll(moved, identities) == ConvertedTrees(mid)
    ensures PermutedOutcome(NormalizeAll(w, mid, moved, identities), NormalizeAll(w, qs, rules, identities))
  {
    PermutesMembers(mid, qs);
    assert |multiset(mid)| == |multiset(qs)|;
    if mid == [] {
      moved := [];
    } else {
      var k := MultisetHead(mid, qs);
      CompileWithout(k, qs, rules, identities);
      var rest := Rearrange(w, mid[1..], Without(qs, k), Without(rules, k), identities);
      moved := [rules[k]] + rest;
      assert CompileAll(rules, identities)[k] == ConvertedTrees(qs)[k];
      assert moved[1..] == rest;
      NormalizeAllMove(w, k, qs, rules, identities);
    }
  }

  lemma CompileWithout(k: nat, qs: seq<Policy>, rules: seq<Rule>, identities: seq<Principal>)
    requires k < |qs| == |rules| && AllInRange(rules, |identities|) && forall q | q in qs :: Convertible(q)
    requires CompileAll(rules, identities) == ConvertedTrees(qs)
    ensures AllInRange(Without(rules, k), |identities|)
    ensures forall q | q in Without(qs, k) :: Convertible(q)
    ensures CompileAll(Without(rules, k), identities) == ConvertedTrees(Without(qs, k))
  {
    CompileAllWithout(rules, k, identities);
    assert forall i :: 0 <= i < |qs| - 1 ==> Without(qs, k)[i] in qs;
    assert ConvertedTrees(Without(qs, k)) == Without(ConvertedTrees(qs), k);
  }

  // Normalizing branch `k` first gives the same branches in another order.
  lemma NormalizeAllMove(w: Wire, k: nat, qs: seq<Policy>, rules: seq<Rule>, identities: seq<Principal>)
    requires k < |qs| == |rules| && AllInRange(rules, |identities|)
    ensures AllInRange(Without(rules, k), |identities|)
    ensures var head := Normalize(w, qs[k], rules[k], identities);
            var rest := NormalizeAll(w, Without(qs, k), Without(rules, k), identities);
            var all := NormalizeAll(w, qs, rules, identities);
            if head.Ok? && rest.Ok? then all.Ok? && multiset(all.value) == multiset{head.value} + multiset(rest.value)
            else all.Err?
  {
    var preQ, postQ, preR, postR := qs[..k], qs[k + 1..], rules[..k], rules[k + 1..];
    var q, r := [qs[k]], [rules[k]];
    assert qs == preQ + (q + postQ) && rules == preR + (r + postR);
    NormalizeAllSplit(w, preQ, q + postQ, preR, r + postR, identities);
    NormalizeAllSplit(w, q, postQ, r, postR, identities);
    NormalizeAllSplit(w, preQ, postQ, preR, postR, identities);
    assert q[1..] == [] && r[1..] == [];
  }

  // The same branches are kept, in some order.
  lemma MergePermuted(a: seq<Rule>, b: seq<Rule>, all: bool, identities: seq<Principal>)
    requires multiset(a) == multiset(b) && AllInRange(a, |identities|) && AllInRange(b, |identities|)
    ensures var x, y := Merge(a, 0, all, identities), Merge(b, 0, all, identities);
            && AllInRange(x, |identities|) && AllInRange(y, |identities|)
            && multiset(x) == multiset(y) && |x| == |y| && (|x| == 1 ==> x == y)
  {
    hide Redundant, PeerImpliesMember, InRange, Merge;
    MergeMeaning(a, all, identities);
    MergeMeaning(b, all, identities);
    MergeElements(a, 0, all, identities);
    MergeElements(b, 0, all, identities);
    var x, y := Merge(a, 0, all, identities), Merge(b, 0, all, identities);
    assert forall r :: (r in a <==> r in multiset(a)) && (r in b <==> r in multiset(b));
    assert Elements(x) == Elements(y);
    SameElementsPermute(x, y);
    assert |multiset(x)| == |multiset(y)|;
    if |x| == 1 { assert x[0] in Elements(y); }
  }

  // Merging, collapsing and closing a boundary do not look at the order of the branches.
  lemma FinishPermuted(w: Wire, n: int, a: seq<Rule>, b: seq<Rule>, identities: seq<Principal>)
    requires Faithful(w) && multiset(a) == multiset(b) && AllInRange(a, |identities|) && AllInRange(b, |identities|)
    ensures SameOutcome(Finish(w, n, a, identities), Finish(w, n, b, identities))
  {
    hide CloseBoundary, Merge, Faithful, InRange, AllInRange;
    assert |multiset(a)| == |multiset(b)|;
    var all := n == |a|;
    if all || n == 1 {
      MergePermuted(a, b, all, identities);
      var x, y := Merge(a, 0, all, identities), Merge(b, 0, all, identities);
      if |x| != 1 { CloseBoundaryPermuted(w, if all then |x| else n, x, y, identities); }
    } else {
      CloseBoundaryPermuted(w, n, a, b, identities);
    }
  }

  lemma CloseBoundaryPermuted(w: Wire, n: int, a: seq<Rule>, b: seq<Rule>, identities: seq<Principal>)
    requires Faithful(w) && multiset(a) == multiset(b) && AllInRange(a, |identities|) && AllInRange(b, |identities|)
    ensures CloseBoundary(w, n, a, identities) == CloseBoundary(w, n, b, identities)
  {
    CompileAllPermutes(a, b, identities);
    BranchesPermute(CompileAll(a, identities), CompileAll(b, identities), []);
    SortByPermutation(w.ruleKey, a, b);
  }

  lemma {:induction false} NormalizeShuffled(w: Wire, p: Policy, q: Policy, x: Rule, y: Rule,
                                             identities: seq<Principal>)
    requires Faithful(w) && NoDuplicates(identities)
    requires InRange(x, |identities|) && InRange(y, |identities|)
    requires Shuffled(p, q) && Convertible(p) && Convertible(q)
    requires Compile(x, identities) == ConvertedTree(p) && Compile(y, identities) == ConvertedTree(q)
    ensures SameOutcome(Normalize(w, p, x, identities), Normalize(w, q, y, identities))
    decreases p, 0
  {
    if p.ImplicitMeta? {
      var mid :| ShuffledAll(p.subPolicies, mid) && Permutes(mid, q.subPolicies);
      assert |CompileAll(x.rules, identities)| == |ConvertedTrees(p.subPolicies)|;
      assert |CompileAll(y.rules, identities)| == |ConvertedTrees(q.subPolicies)|;
      var moved := Rearrange(w, mid, q.subPolicies, y.rules, identities);
      NormalizeAllShuffled(w, p.subPolicies, mid, x.rules, moved, identities);
      var a := NormalizeAll(w, p.subPolicies, x.rules, identities);
      var b := NormalizeAll(w, q.subPolicies, y.rules, identities);
      if a.Ok? {
        FinishPermuted(w, x.n, a.value, b.value, identities);
      }
    } else {
      CompileInjective(x, y, identities);
    }
  }

  lemma {:induction false} NormalizeAllShuffled(w: Wire, ps: seq<Policy>, qs: seq<Policy>, xs: seq<Rule>, ys: seq<Rule>,
                                                identities: seq<Principal>)
    requires Faithful(w) && NoDuplicates(identities)
    requires |ps| == |xs| && |qs| == |ys| && AllInRange(xs, |identities|) && AllInRange(ys, |identities|)
    requires ShuffledAll(ps, qs) && (forall p | p in ps :: Convertible(p)) && (forall q | q in qs :: Convertible(q))
    requires CompileAll(xs, identities) == ConvertedTrees(ps) && CompileAll(ys, identities) == ConvertedTrees(qs)
    ensures SameOutcome(NormalizeAll(w, ps, xs, identities), NormalizeAll(w, qs, ys, identities))
    decreases ps, 1
  {
    if ps != [] {
      assert CompileAll(xs, identities)[0] == ConvertedTrees(ps)[0];
      assert CompileAll(ys, identities)[0] == ConvertedTrees(qs)[0];
      assert CompileAll(xs[1..], identities) == CompileAll(xs, identities)[1..] == ConvertedTrees(ps[1..]);
      assert CompileAll(ys[1..], identities) == CompileAll(ys, identities)[1..] == ConvertedTrees(qs[1..]);
      NormalizeShuffled(w, ps[0], qs[0], xs[0], ys[0], identities);
      NormalizeAllShuffled(w, ps[1..], qs[1..], xs[1..], ys[1..], identities);
    }
  }

  // Reordering subpolicies anywhere in a channel policy changes nothing: both conversions fail,
  // or both give the identical envelope.
  lemma ConversionOrderIrrelevant(w: Wire, p: Policy, q: Policy, a: Envelope, b: Envelope)
    requires Faithful(w) && IsConversion(p, a) && IsConversion(q, b) && Shuffled(p, q)
    ensures SameOutcome(ResolveConverted(w, p, a), ResolveConverted(w, q, b))
  {
    ShuffledKeeps(p, q);
    CanonicalPreserves(w, a);
    CanonicalPreserves(w, b);
    CompiledThresholds(a.rule, a.identities);
    CompiledThresholds(b.rule, b.identities);
    assert NilPrincipal in a.identities <==> NilPrincipal in b.identities by {
      assert NilPrincipal in Elements(a.identities) <==> NilPrincipal in Elements(b.identities);
    }
    if Valid(a) {
      var x, y := Canonical(w, a).value, Canonical(w, b).value;
      StrictlySortedUnique(w, x.identities, y.identities);
      StrictlySortedDistinct(w, x.identities);
      NormalizeShuffled(w, p, q, x.rule, y.rule, x.identities);
    }
  }
}
