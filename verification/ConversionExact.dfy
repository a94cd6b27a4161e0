/** Exactly which channel policies are converted, said of the source policies. */
module ConversionExact {
  import opened Prelude
  import opened SignaturePolicy
  import opened CanonicalPolicy
  import opened ImplicitMeta
  import opened PolicyOrder

  // A leaf or wrapped leaf for the peers of an MSP, and one for its members.
  predicate PeerBeside(peer: Tree, member: Tree) {
    var p, m := TreeRole(peer), TreeRole(member);
    p.Some? && m.Some? && PeerAndMember(p.value, m.value)
  }

  // Both may be wrapped in 1-of-1 rules, and their payloads may hold anything else.
  lemma PeerBesideExact(peer: Tree, member: Tree)
    ensures PeerBeside(peer, member) <==>
            exists msp, x, y, k: nat, l: nat ::
              && msp != "" && peer == Wrapped(RolePrincipal(msp, Peer, x), k)
              && member == Wrapped(RolePrincipal(msp, Member, y), l)
  {
    hide Wrapped, TreeRole;
    if PeerBeside(peer, member) {
      var k := WrappedOfRole(peer);
      var l := WrappedOfRole(member);
      var p, m := TreeRole(peer).value, TreeRole(member).value;
      assert p == RolePrincipal(p.msp, Peer, p.rest) && m == RolePrincipal(p.msp, Member, m.rest);
    }
    if msp, x, y, k: nat, l: nat :|
      && msp != "" && peer == Wrapped(RolePrincipal(msp, Peer, x), k)
      && member == Wrapped(RolePrincipal(msp, Member, y), l)
    {
      RoleOfWrapped(RolePrincipal(msp, Peer, x), k);
      RoleOfWrapped(RolePrincipal(msp, Member, y), l);
    }
  }

  /* Trees and rules. */

  // The rule with indexes into `identities` that a tree comes from.
  function Indexed(tree: Tree, identities: seq<Principal>): Rule
    decreases tree, 0
  {
    match tree
    case Leaf(p) => SignedBy(if p in identities then IndexOf(p, identities) else 0)
    case Threshold(n, branches) => NOutOf(n, IndexedAll(branches, identities))
  }

  function IndexedAll(trees: seq<Tree>, identities: seq<Principal>): (rules: seq<Rule>)
    ensures |rules| == |trees|
    ensures forall i :: 0 <= i < |trees| ==> rules[i] == Indexed(trees[i], identities)
    decreases trees, 1
  {
    if trees == [] then [] else [Indexed(trees[0], identities)] + IndexedAll(trees[1..], identities)
  }

  lemma {:induction false} IndexedCompile(rule: Rule, identities: seq<Principal>)
    requires InRange(rule, |identities|) && NoDuplicates(identities)
    ensures Indexed(Compile(rule, identities), identities) == rule
  {
    match rule
    case SignedBy(i) =>
    case NOutOf(n, rules) =>
      var trees := CompileAll(rules, identities);
      forall k | 0 <= k < |rules| ensures Indexed(trees[k], identities) == rules[k] {
        IndexedCompile(rules[k], identities);
      }
      assert IndexedAll(trees, identities) == rules;
  }

  // The bytes by which a boundary is sorted.
  function KeyOf(w: Wire, identities: seq<Principal>): Tree -> Bytes {
    tree => w.ruleKey(Indexed(tree, identities))
  }

  lemma {:induction false} InsertCompiled(w: Wire, rule: Rule, rules: seq<Rule>, identities: seq<Principal>)
    requires InRange(rule, |identities|) && AllInRange(rules, |identities|) && NoDuplicates(identities)
    ensures AllInRange(InsertBy(w.ruleKey, rule, rules), |identities|)
    ensures CompileAll(InsertBy(w.ruleKey, rule, rules), identities)
            == InsertBy(KeyOf(w, identities), Compile(rule, identities), CompileAll(rules, identities))
    decreases rules
  {
    InsertByPermutes(w.ruleKey, rule, rules);
    forall r | r in InsertBy(w.ruleKey, rule, rules) ensures InRange(r, |identities|) {
      assert r in multiset(InsertBy(w.ruleKey, rule, rules));
    }
    IndexedCompile(rule, identities);
    if rules != [] {
      IndexedCompile(rules[0], identities);
      InsertCompiled(w, rule, rules[1..], identities);
      assert CompileAll(rules, identities)[1..] == CompileAll(rules[1..], identities);
      CompileCons(rule, rules, identities);
      CompileCons(rules[0], InsertBy(w.ruleKey, rule, rules[1..]), identities);
    } else {
      CompileCons(rule, rules, identities);
    }
  }

  lemma CompileCons(rule: Rule, rules: seq<Rule>, identities: seq<Principal>)
    requires InRange(rule, |identities|) && AllInRange(rules, |identities|)
    ensures AllInRange([rule] + rules, |identities|)
    ensures CompileAll([rule] + rules, identities) == [Compile(rule, identities)] + CompileAll(rules, identities)
  {
    hide InRange, Compile;
    assert ([rule] + rules)[1..] == rules;
  }

  lemma {:induction false} SortCompiled(w: Wire, rules: seq<Rule>, identities: seq<Principal>)
    requires AllInRange(rules, |identities|) && NoDuplicates(identities)
    ensures AllInRange(SortBy(w.ruleKey, rules), |identities|)
    ensures CompileAll(SortBy(w.ruleKey, rules), identities)
            == SortBy(KeyOf(w, identities), CompileAll(rules, identities))
    decreases rules
  {
    hide InsertBy, Compile, InRange;
    if rules != [] {
      SortCompiled(w, rules[1..], identities);
      InsertCompiled(w, rules[0], SortBy(w.ruleKey, rules[1..]), identities);
      assert CompileAll(rules, identities)[1..] == CompileAll(rules[1..], identities);
    }
  }

  /* One boundary, on trees. */

  // The different branches, without members beside their peer under ALL.
  ghost function KeptTrees(trees: set<Tree>, all: bool): set<Tree> {
    set t | t in trees && !(all && exists p | p in trees :: PeerBeside(p, t))
  }

  ghost predicate SeparateTrees(trees: set<Tree>) {
    && (forall t | t in trees :: RolesOnly(t))
    && (forall t, u | t in trees && u in trees && t != u :: Msps(t) !! Msps(u))
  }

  // A boundary over these branches can be closed.
  ghost predicate Closes(n: int, trees: seq<Tree>) {
    if n == |trees| || n == 1 then
      var kept := KeptTrees(Elements(trees), n == |trees|);
      |kept| == 1 || SeparateTrees(kept)
    else
      Independent(trees)
  }

  // The kept branches from `i` on, each at its first place.
  ghost function KeptFrom(trees: seq<Tree>, i: nat, all: bool): seq<Tree>
    requires i <= |trees|
    decreases |trees| - i
  {
    if i == |trees| then []
    else
      (if trees[i] in trees[..i] || trees[i] !in KeptTrees(Elements(trees), all) then [] else [trees[i]])
      + KeptFrom(trees, i + 1, all)
  }

  // What a boundary becomes.
  ghost function Closed(key: Tree -> Bytes, n: int, trees: seq<Tree>): Tree {
    if n == |trees| || n == 1 then
      var kept := KeptFrom(trees, 0, n == |trees|);
      if |kept| == 1 then kept[0] else Threshold(if n == |trees| then |kept| else n, SortBy(key, kept))
    else
      Threshold(n, SortBy(key, trees))
  }

  /* The whole policy. */

  // What a policy becomes when every boundary below it can be closed.
  ghost function Form(key: Tree -> Bytes, policy: Policy): Tree
    requires Convertible(policy)
    decreases policy, 0
  {
    match policy
    case Signature(e) => ConvertedTree(policy)
    case ImplicitMeta(n, subs) => Closed(key, n, Forms(key, subs))
  }

  ghost function Forms(key: Tree -> Bytes, subs: seq<Policy>): (forms: seq<Tree>)
    requires forall p | p in subs :: Convertible(p)
    ensures |forms| == |subs|
    ensures forall i :: 0 <= i < |subs| ==> forms[i] == Form(key, subs[i])
    decreases subs, 1
  {
    if subs == [] then [] else [Form(key, subs[0])] + Forms(key, subs[1..])
  }

  // Every boundary can be closed once those below it are.
  ghost predicate Settles(key: Tree -> Bytes, policy: Policy)
    requires Convertible(policy)
    decreases policy, 0
  {
    match policy
    case Signature(e) => true
    case ImplicitMeta(n, subs) => AllSettle(key, subs) && Closes(n, Forms(key, subs))
  }

  ghost predicate AllSettle(key: Tree -> Bytes, subs: seq<Policy>)
    requires forall p | p in subs :: Convertible(p)
    decreases subs, 1
  {
    subs == [] || (Settles(key, subs[0]) && AllSettle(key, subs[1..]))
  }

  /* The code closes what can be closed. */

  lemma SameTree(a: Rule, b: Rule, identities: seq<Principal>)
    requires InRange(a, |identities|) && InRange(b, |identities|) && NoDuplicates(identities)
    ensures Compile(a, identities) == Compile(b, identities) <==> a == b
  {
    if Compile(a, identities) == Compile(b, identities) { CompileInjective(a, b, identities); }
  }

  lemma PeerTrees(p: Rule, m: Rule, identities: seq<Principal>)
    requires InRange(p, |identities|) && InRange(m, |identities|)
    ensures PeerImpliesMember(p, m, identities) <==> PeerBeside(Compile(p, identities), Compile(m, identities))
  {
    SingleRoleTree(p, identities);
    SingleRoleTree(m, identities);
  }

  lemma CompiledIn(rules: seq<Rule>, rule: Rule, identities: seq<Principal>)
    requires AllInRange(rules, |identities|) && InRange(rule, |identities|) && NoDuplicates(identities)
    ensures rule in rules <==> Compile(rule, identities) in CompileAll(rules, identities)
  {
    hide Compile, InRange;
    var trees := CompileAll(rules, identities);
    if Compile(rule, identities) in trees {
      var i :| 0 <= i < |trees| && trees[i] == Compile(rule, identities);
      assert rules[i] in rules;
      SameTree(rules[i], rule, identities);
    }
    if rule in rules {
      var i :| 0 <= i < |rules| && rules[i] == rule;
      assert trees[i] == Compile(rule, identities);
    }
  }

  lemma KeptCompiled(rules: seq<Rule>, rule: Rule, all: bool, identities: seq<Principal>)
    requires AllInRange(rules, |identities|) && rule in rules && NoDuplicates(identities)
    ensures Compile(rule, identities) in KeptTrees(Elements(CompileAll(rules, identities)), all)
            <==> !(all && exists p | p in rules :: PeerImpliesMember(p, rule, identities))
  {
    hide Compile, InRange, PeerBeside, PeerImpliesMember;
    var trees, t := CompileAll(rules, identities), Compile(rule, identities);
    CompiledIn(rules, rule, identities);
    if p :| p in rules && PeerImpliesMember(p, rule, identities) {
      CompiledIn(rules, p, identities);
      PeerTrees(p, rule, identities);
    }
    if p :| p in trees && PeerBeside(p, t) {
      var i :| 0 <= i < |trees| && trees[i] == p;
      assert rules[i] in rules;
      PeerTrees(rules[i], rule, identities);
    }
  }

  lemma RedundantCompiled(rules: seq<Rule>, i: nat, all: bool, identities: seq<Principal>)
    requires AllInRange(rules, |identities|) && i < |rules| && NoDuplicates(identities)
    ensures var trees := CompileAll(rules, identities);
            Redundant(rules, i, all, identities)
            <==> trees[i] in trees[..i] || trees[i] !in KeptTrees(Elements(trees), all)
  {
    hide Compile, InRange, PeerImpliesMember, KeptTrees;
    var trees := CompileAll(rules, identities);
    assert rules[i] in rules;
    KeptCompiled(rules, rules[i], all, identities);
    forall j | 0 <= j < i ensures trees[j] == trees[i] <==> rules[j] == rules[i] {
      assert rules[j] in rules;
      SameTree(rules[j], rules[i], identities);
    }
    if trees[i] in trees[..i] {
      var j :| 0 <= j < i && trees[..i][j] == trees[i];
      assert rules[j] == rules[i];
    }
    if p :| p in rules && PeerImpliesMember(p, rules[i], identities) {
      var j :| 0 <= j < |rules| && rules[j] == p;
    }
    forall j | 0 <= j < i && rules[j] == rules[i] ensures trees[i] in trees[..i] { assert trees[..i][j] == trees[i]; }
  }

  lemma MergedInRange(rules: seq<Rule>, i: nat, all: bool, identities: seq<Principal>)
    requires AllInRange(rules, |identities|) && i <= |rules|
    ensures AllInRange(Merge(rules, i, all, identities), |identities|)
  {
    MergeElements(rules, i, all, identities);
  }

  lemma {:induction false} MergeCompiled(rules: seq<Rule>, i: nat, all: bool, identities: seq<Principal>)
    requires AllInRange(rules, |identities|) && i <= |rules| && NoDuplicates(identities)
    ensures AllInRange(Merge(rules, i, all, identities), |identities|)
    ensures CompileAll(Merge(rules, i, all, identities), identities) == KeptFrom(CompileAll(rules, identities), i, all)
    decreases |rules| - i
  {
    hide Compile, CompileAll, InRange, Redundant, KeptTrees;
    MergedInRange(rules, i, all, identities);
    if i < |rules| {
      MergeCompiled(rules, i + 1, all, identities);
      RedundantCompiled(rules, i, all, identities);
      assert rules[i] in rules;
      CompileCons(rules[i], Merge(rules, i + 1, all, identities), identities);
    }
  }

  // The kept branches, each once.
  lemma {:induction false} KeptOnce(trees: seq<Tree>, i: nat, all: bool)
    requires i <= |trees|
    ensures NoDuplicates(KeptFrom(trees, i, all))
    ensures forall t :: t in KeptFrom(trees, i, all) <==>
                        t in trees[i..] && t !in trees[..i] && t in KeptTrees(Elements(trees), all)
    decreases |trees| - i
  {
    hide KeptTrees;
    if i < |trees| {
      KeptOnce(trees, i + 1, all);
      assert trees[i..] == [trees[i]] + trees[i + 1..] && trees[..i + 1] == trees[..i] + [trees[i]];
    }
  }

  lemma KeptSeparate(trees: seq<Tree>)
    requires NoDuplicates(trees)
    ensures Independent(trees) <==> SeparateTrees(Elements(trees))
  {
    hide Independent, Msps, RolesOnly;
    IndependentMeaning(trees);
    assert forall i | 0 <= i < |trees| :: trees[i] in Elements(trees);
    if Independent(trees) {
      forall t, u | t in Elements(trees) && u in Elements(trees) && t != u ensures Msps(t) !! Msps(u) {
        var i :| 0 <= i < |trees| && trees[i] == t;
        var j :| 0 <= j < |trees| && trees[j] == u;
      }
    }
  }

  lemma KeptWhole(trees: seq<Tree>, all: bool)
    ensures var kept := KeptFrom(trees, 0, all);
            && |kept| == |KeptTrees(Elements(trees), all)|
            && (Independent(kept) <==> SeparateTrees(KeptTrees(Elements(trees), all)))
  {
    hide Independent, SeparateTrees;
    var kept := KeptFrom(trees, 0, all);
    KeptOnce(trees, 0, all);
    assert trees[0..] == trees && trees[..0] == [];
    assert Elements(kept) == KeptTrees(Elements(trees), all);
    DistinctSize(kept);
    KeptSeparate(kept);
  }

  lemma CloseCompiled(w: Wire, n: int, rules: seq<Rule>, identities: seq<Principal>)
    requires AllInRange(rules, |identities|) && NoDuplicates(identities)
    ensures var trees, r := CompileAll(rules, identities), CloseBoundary(w, n, rules, identities);
            && (r.Ok? <==> Independent(trees))
            && (r.Ok? ==> Compile(r.value, identities) == Threshold(n, SortBy(KeyOf(w, identities), trees)))
  {
    hide Independent, SortBy;
    SortCompiled(w, rules, identities);
  }

  // A boundary ends well exactly when it can be closed, and then becomes the closed one.
  lemma FinishExact(w: Wire, n: int, rules: seq<Rule>, identities: seq<Principal>)
    requires AllInRange(rules, |identities|) && NoDuplicates(identities)
    ensures var trees, r := CompileAll(rules, identities), Finish(w, n, rules, identities);
            && (r.Ok? <==> Closes(n, trees))
            && (r.Ok? ==> Compile(r.value, identities) == Closed(KeyOf(w, identities), n, trees))
  {
    hide Independent, SortBy, CloseBoundary, Merge, KeptTrees, KeptFrom, SeparateTrees, InRange, Compile, KeyOf;
    var trees, all := CompileAll(rules, identities), n == |rules|;
    if all || n == 1 {
      var merged := Merge(rules, 0, all, identities);
      MergeCompiled(rules, 0, all, identities);
      KeptWhole(trees, all);
      if |merged| != 1 { CloseCompiled(w, if all then |merged| else n, merged, identities); }
    } else {
      CloseCompiled(w, n, rules, identities);
    }
  }

  lemma {:induction false} NormalizeExact(w: Wire, source: Policy, rule: Rule, identities: seq<Principal>)
    requires Convertible(source) && NoDuplicates(identities)
    requires InRange(rule, |identities|) && Compile(rule, identities) == ConvertedTree(source)
    ensures var r, key := Normalize(w, source, rule, identities), KeyOf(w, identities);
            && (r.Ok? <==> Settles(key, source)) && (r.Ok? ==> Compile(r.value, identities) == Form(key, source))
    decreases source, 0
  {
    hide Finish, Closes, Closed, KeyOf;
    if source.ImplicitMeta? {
      NormalizeAllExact(w, source.subPolicies, rule.rules, identities);
      var rules := NormalizeAll(w, source.subPolicies, rule.rules, identities);
      if rules.Ok? { FinishExact(w, rule.n, rules.value, identities); }
    }
  }

  lemma {:induction false} NormalizeAllExact(w: Wire, sources: seq<Policy>, rules: seq<Rule>,
                                             identities: seq<Principal>)
    requires |sources| == |rules| && AllInRange(rules, |identities|) && NoDuplicates(identities)
    requires forall p | p in sources :: Convertible(p)
    requires CompileAll(rules, identities) == ConvertedTrees(sources)
    ensures var r, key := NormalizeAll(w, sources, rules, identities), KeyOf(w, identities);
            && (r.Ok? <==> AllSettle(key, sources))
            && (r.Ok? ==> CompileAll(r.value, identities) == Forms(key, sources))
    decreases sources, 1
  {
    hide KeyOf, Settles, Form;
    if sources != [] {
      var trees := ConvertedTrees(sources);
      assert CompileAll(rules, identities)[0] == trees[0];
      assert CompileAll(rules[1..], identities) == CompileAll(rules, identities)[1..] == ConvertedTrees(sources[1..]);
      NormalizeExact(w, sources[0], rules[0], identities);
      NormalizeAllExact(w, sources[1..], rules[1..], identities);
      var head := Normalize(w, sources[0], rules[0], identities);
      var tail := NormalizeAll(w, sources[1..], rules[1..], identities);
      if head.Ok? && tail.Ok? { CompileCons(head.value, tail.value, identities); }
    }
  }

  /* The conversion. */

  // The principals of a policy in canonical order.
  ghost function Directory(w: Wire, policy: Policy): (identities: seq<Principal>)
    requires Faithful(w) && Convertible(policy) && NilPrincipal !in Principals(policy)
    ensures StrictlySorted(w.principalKey, identities) && Elements(identities) == Principals(policy)
  {
    ListExists(Principals(policy));
    var listed :| Elements(listed) == Principals(policy);
    assert NilPrincipal !in Elements(listed);
    DistinctPrincipalsSorted(w, listed);
    DistinctPrincipals(w, listed)
  }

  lemma {:induction false} ListExists<T>(s: set<T>)
    ensures exists listed: seq<T> :: Elements(listed) == s
  {
    if s == {} {
      assert Elements<T>([]) == s;
    } else {
      var x :| x in s;
      ListExists(s - {x});
      var rest :| Elements(rest) == s - {x};
      assert Elements([x] + rest) == {x} + Elements(rest);
    }
  }

  // A channel policy is converted if and only if it names no nil principal, its thresholds are in
  // range, and every boundary can be closed: under ALL or ANY one branch is left after merging, or
  // the branches left are about different MSPs; under other thresholds all branches are.
  lemma ConversionExact(w: Wire, policy: Policy, converted: Envelope)
    requires Faithful(w) && IsConversion(policy, converted)
    ensures ResolveConverted(w, policy, converted).Ok? <==>
            && NilPrincipal !in Principals(policy) && TreeThresholds(ConvertedTree(policy))
            && Settles(KeyOf(w, Directory(w, policy)), policy)
    ensures ResolveConverted(w, policy, converted).Ok? ==>
            var e := ResolveConverted(w, policy, converted).value;
            && e.identities == Directory(w, policy)
            && Compile(e.rule, e.identities) == Form(KeyOf(w, Directory(w, policy)), policy)
  {
    hide Normalize, Settles, Form, KeyOf, TreeThresholds, Canonical;
    CanonicalPreserves(w, converted);
    CompiledThresholds(converted.rule, converted.identities);
    assert NilPrincipal in converted.identities <==> NilPrincipal in Elements(converted.identities);
    if Valid(converted) {
      var e := Canonical(w, converted).value;
      StrictlySortedUnique(w, e.identities, Directory(w, policy));
      StrictlySortedDistinct(w, e.identities);
      NormalizeExact(w, policy, e.rule, e.identities);
    }
  }

  // For signature subpolicies the condition is about the source trees themselves.
  lemma FlatExact(w: Wire, n: int, subs: seq<Policy>, converted: Envelope)
    requires Faithful(w) && (forall p | p in subs :: p.Signature?) && IsConversion(ImplicitMeta(n, subs), converted)
    ensures ResolveConverted(w, ImplicitMeta(n, subs), converted).Ok? <==>
            && NilPrincipal !in PrincipalsAll(subs) && TreeThresholds(Threshold(n, ConvertedTrees(subs)))
            && Closes(n, ConvertedTrees(subs))
  {
    hide Closes, TreeThresholds, ResolveConverted;
    ConversionExact(w, ImplicitMeta(n, subs), converted);
    if NilPrincipal !in PrincipalsAll(subs) {
      SignatureForms(KeyOf(w, Directory(w, ImplicitMeta(n, subs))), subs);
    }
  }

  lemma {:induction false} SignatureForms(key: Tree -> Bytes, subs: seq<Policy>)
    requires forall p | p in subs :: Convertible(p) && p.Signature?
    ensures AllSettle(key, subs) && Forms(key, subs) == ConvertedTrees(subs)
  {
    if subs != [] {
      assert subs[0] in subs;
      SignatureForms(key, subs[1..]);
    }
  }

  /* The documented rewrites, for subpolicies of any nesting. */

  // ALL(P, .., P) and ANY(P, .., P) are P.
  lemma DuplicatesCollapse(key: Tree -> Bytes, n: int, subs: seq<Policy>, p: Policy)
    requires subs != [] && (forall s | s in subs :: s == p) && Convertible(p) && (n == |subs| || n == 1)
    ensures Settles(key, ImplicitMeta(n, subs)) <==> Settles(key, p)
    ensures Form(key, ImplicitMeta(n, subs)) == Form(key, p)
  {
    hide Form, Settles;
    assert subs[0] in subs;
    AllSettleMeaning(key, subs);
    var forms, all, form := Forms(key, subs), n == |subs|, Form(key, p);
    forall i | 0 <= i < |forms| ensures forms[i] == form && subs[i] == p { assert subs[i] in subs; }
    assert AllSettle(key, subs) <==> Settles(key, subs[0]);
    assert Elements(forms) == {form} by { assert forms[0] == form; }
    assert KeptTrees({form}, all) == {form};
    KeptWhole(forms, all);
    KeptOnce(forms, 0, all);
    var kept := KeptFrom(forms, 0, all);
    assert kept[0] in kept && forms[0..] == forms;
    UnfoldBoundary(key, n, subs);
  }

  lemma PeerAlone(p: Tree, m: Tree)
    requires PeerBeside(p, m)
    ensures KeptTrees({p, m}, true) == {p}
  {
    hide TreeRole;
    assert forall t | t in {p, m} :: !PeerBeside(t, p);
  }

  lemma {:induction false} SamePrincipals(subs: seq<Policy>, p: Policy)
    requires subs != [] && (forall s | s in subs :: s == p) && Convertible(p)
    ensures PrincipalsAll(subs) == Principals(p)
  {
    assert subs[0] in subs && forall s | s in subs[1..] :: s in subs;
    if |subs| > 1 { SamePrincipals(subs[1..], p); }
  }

  // The stored envelope is that of P itself.
  lemma DuplicatesConvert(w: Wire, n: int, subs: seq<Policy>, p: Policy, a: Envelope, b: Envelope)
    requires subs != [] && (forall s | s in subs :: s == p) && (n == |subs| || n == 1) && Faithful(w)
    requires IsConversion(ImplicitMeta(n, subs), a) && IsConversion(p, b)
    ensures SameOutcome(ResolveConverted(w, ImplicitMeta(n, subs), a), ResolveConverted(w, p, b))
  {
    hide Form, Settles, Canonical, Normalize;
    var all := ImplicitMeta(n, subs);
    assert subs[0] in subs;
    SamePrincipals(subs, p);
    ConversionExact(w, all, a);
    ConversionExact(w, p, b);
    var trees := ConvertedTrees(subs);
    forall i | 0 <= i < |trees| ensures trees[i] == ConvertedTree(p) { assert subs[i] in subs; }
    assert trees[0] in trees;
    if NilPrincipal !in Principals(p) {
      var x, y := Directory(w, all), Directory(w, p);
      StrictlySortedUnique(w, x, y);
      StrictlySortedDistinct(w, x);
      DuplicatesCollapse(KeyOf(w, x), n, subs, p);
      SameEnvelope(w, all, p, a, b);
    }
  }

  lemma SameEnvelope(w: Wire, p: Policy, q: Policy, a: Envelope, b: Envelope)
    requires Faithful(w)
    ensures var x, y := ResolveConverted(w, p, a), ResolveConverted(w, q, b);
            && (x.Ok? ==> x.value.version == a.version)
            && (x.Ok? && y.Ok? && a.version == b.version && x.value.identities == y.value.identities
                && NoDuplicates(x.value.identities)
                && Compile(x.value.rule, x.value.identities) == Compile(y.value.rule, y.value.identities) ==>
                x == y)
  {
    hide Normalize, Compile, InRange;
    CanonicalPreserves(w, a);
    CanonicalPreserves(w, b);
    var x, y := ResolveConverted(w, p, a), ResolveConverted(w, q, b);
    if x.Ok? && y.Ok? && x.value.identities == y.value.identities && NoDuplicates(x.value.identities)
       && Compile(x.value.rule, x.value.identities) == Compile(y.value.rule, y.value.identities)
    {
      CompileInjective(x.value.rule, y.value.rule, x.value.identities);
    }
  }

  // ALL(peer, member) and ALL(member, peer) of one MSP are the peer.
  lemma PeerCoversMember(key: Tree -> Bytes, peer: Policy, member: Policy, subs: seq<Policy>, msp: string, x: Bytes,
                         y: Bytes, k: nat, l: nat)
    requires Convertible(peer) && Convertible(member) && msp != ""
    requires Form(key, peer) == Wrapped(RolePrincipal(msp, Peer, x), k)
    requires Form(key, member) == Wrapped(RolePrincipal(msp, Member, y), l)
    requires subs == [peer, member] || subs == [member, peer]
    ensures Settles(key, ImplicitMeta(2, subs)) <==> Settles(key, peer) && Settles(key, member)
    ensures Form(key, ImplicitMeta(2, subs)) == Form(key, peer)
  {
    hide Form, Settles, PeerBeside, KeptTrees, KeptFrom, SeparateTrees, Wrapped;
    AllSettleMeaning(key, subs);
    var forms, p, m := Forms(key, subs), Form(key, peer), Form(key, member);
    assert forms == [p, m] || forms == [m, p];
    assert Elements(forms) == {p, m};
    PeerBesideExact(p, m);
    PeerAlone(p, m);
    KeptWhole(forms, true);
    KeptOnce(forms, 0, true);
    var kept := KeptFrom(forms, 0, true);
    assert kept[0] in kept && forms[0..] == forms;
    UnfoldBoundary(key, 2, subs);
  }

  lemma {:induction false} WrappedThresholds(p: Principal, wrappers: nat)
    ensures TreeThresholds(Wrapped(p, wrappers))
  {
    if wrappers > 0 { WrappedThresholds(p, wrappers - 1); }
  }

  // For the peers and the members of any MSP, whatever else the payloads hold, in either order and
  // inside any number of 1-of-1 rules: ALL of both is stored as the peer leaf.
  lemma PeerMergesMember(w: Wire, msp: string, x: Bytes, y: Bytes, k: nat, l: nat, peer: Envelope, member: Envelope,
                         subs: seq<Policy>, converted: Envelope)
    requires Faithful(w) && msp != "" && IsConversion(ImplicitMeta(2, subs), converted)
    requires InRange(peer.rule, |peer.identities|) && InRange(member.rule, |member.identities|)
    requires Compile(peer.rule, peer.identities) == Wrapped(RolePrincipal(msp, Peer, x), k)
    requires Compile(member.rule, member.identities) == Wrapped(RolePrincipal(msp, Member, y), l)
    requires NilPrincipal !in peer.identities && NilPrincipal !in member.identities
    requires subs == [Signature(peer), Signature(member)] || subs == [Signature(member), Signature(peer)]
    ensures var r := ResolveConverted(w, ImplicitMeta(2, subs), converted);
            r.Ok? && Compile(r.value.rule, r.value.identities) == Wrapped(RolePrincipal(msp, Peer, x), k)
  {
    hide ResolveConverted, KeyOf, Closes, Closed, Wrapped, Compile;
    var policy := ImplicitMeta(2, subs);
    assert subs[0] in subs && subs[1] in subs;
    TwoPrincipals(subs[0], subs[1]);
    assert subs == [subs[0], subs[1]];
    assert NilPrincipal !in Elements(peer.identities) && NilPrincipal !in Elements(member.identities);
    ConversionExact(w, policy, converted);
    var key := KeyOf(w, Directory(w, policy));
    PeerCoversMember(key, Signature(peer), Signature(member), subs, msp, x, y, k, l);
    WrappedThresholds(RolePrincipal(msp, Peer, x), k);
    WrappedThresholds(RolePrincipal(msp, Member, y), l);
    var trees := ConvertedTrees(subs);
    assert forall t | t in trees :: TreeThresholds(t);
    assert TreeThresholds(Threshold(2, trees));
  }

  lemma TwoPrincipals(p: Policy, q: Policy)
    requires Convertible(p) && Convertible(q)
    ensures PrincipalsAll([p, q]) == Principals(p) + Principals(q)
  {
    assert [p, q][1..] == [q] && [q][1..] == [];
    assert PrincipalsAll([q]) == Principals(q) + PrincipalsAll([]);
  }

  // The plain case: two leaves.
  lemma PeerLeafMergesMember(w: Wire, msp: string, x: Bytes, y: Bytes, subs: seq<Policy>, converted: Envelope)
    requires Faithful(w) && msp != "" && IsConversion(ImplicitMeta(2, subs), converted)
    requires var peer := Signature(Envelope(0, SignedBy(0), [RolePrincipal(msp, Peer, x)]));
             var member := Signature(Envelope(0, SignedBy(0), [RolePrincipal(msp, Member, y)]));
             subs == [peer, member] || subs == [member, peer]
    ensures var r := ResolveConverted(w, ImplicitMeta(2, subs), converted);
            r.Ok? && Compile(r.value.rule, r.value.identities) == Leaf(RolePrincipal(msp, Peer, x))
  {
    hide ResolveConverted;
    PeerMergesMember(w, msp, x, y, 0, 0, Envelope(0, SignedBy(0), [RolePrincipal(msp, Peer, x)]),
                     Envelope(0, SignedBy(0), [RolePrincipal(msp, Member, y)]), subs, converted);
  }

  lemma UnfoldBoundary(key: Tree -> Bytes, n: int, subs: seq<Policy>)
    requires forall p | p in subs :: Convertible(p)
    ensures Settles(key, ImplicitMeta(n, subs)) <==> AllSettle(key, subs) && Closes(n, Forms(key, subs))
    ensures Form(key, ImplicitMeta(n, subs)) == Closed(key, n, Forms(key, subs))
  {
    hide Closes, Closed, AllSettle, Forms;
  }

  lemma {:induction false} AllSettleMeaning(key: Tree -> Bytes, subs: seq<Policy>)
    requires forall p | p in subs :: Convertible(p)
    ensures AllSettle(key, subs) <==> forall i | 0 <= i < |subs| :: Settles(key, subs[i])
  {
    if subs != [] {
      var rest := subs[1..];
      assert AllSettle(key, subs) <==> Settles(key, subs[0]) && AllSettle(key, rest);
      assert forall i | 1 <= i < |subs| :: subs[i] == rest[i - 1];
      assert forall i | 0 <= i < |rest| :: rest[i] == subs[i + 1];
      AllSettleMeaning(key, rest);
    }
  }

  /* Policies that need no merging. */

  // At every implicit-meta boundary the subpolicies are about different MSPs.
  predicate Disjoint(policy: Policy)
    requires Convertible(policy)
  {
    match policy
    case Signature(e) => RolesOnly(ConvertedTree(policy))
    case ImplicitMeta(_, subs) => AllDisjoint(subs) && Independent(ConvertedTrees(subs))
  }

  predicate AllDisjoint(policies: seq<Policy>)
    requires forall p | p in policies :: Convertible(p)
  {
    forall p | p in policies :: Disjoint(p)
  }

  // A form is about no more MSPs than its source.
  predicate Below(form: Tree, tree: Tree) {
    RolesOnly(form) && Msps(form) <= Msps(tree)
  }

  lemma {:induction false} IndependentRoles(trees: seq<Tree>)
    requires Independent(trees)
    ensures RolesOnlyAll(trees)
  {
    if trees != [] { IndependentRoles(trees[1..]); }
  }

  lemma BelowIndependent(forms: seq<Tree>, trees: seq<Tree>)
    requires |forms| == |trees| && Independent(trees) && forall i | 0 <= i < |forms| :: Below(forms[i], trees[i])
    ensures Independent(forms) && MspsAll(forms) <= MspsAll(trees)
  {
    hide Independent, RolesOnly, Msps, MspsAll;
    IndependentMeaning(trees);
    IndependentMeaning(forms);
    MspsAllMeaning(forms);
    MspsAllMeaning(trees);
    forall i | 0 <= i < |forms| ensures Msps(forms[i]) <= Msps(trees[i]) { assert Below(forms[i], trees[i]); }
  }

  lemma KeptIndependent(trees: seq<Tree>, all: bool)
    requires Independent(trees)
    ensures Independent(KeptFrom(trees, 0, all)) && MspsAll(KeptFrom(trees, 0, all)) <= MspsAll(trees)
  {
    hide Independent, RolesOnly, Msps, MspsAll, KeptFrom, KeptTrees;
    var kept := KeptFrom(trees, 0, all);
    KeptOnce(trees, 0, all);
    assert trees[0..] == trees;
    IndependentMeaning(trees);
    IndependentMeaning(kept);
    MspsAllMeaning(kept);
    MspsAllMeaning(trees);
    forall i | 0 <= i < |kept| ensures kept[i] in trees { assert kept[i] in kept; }
    forall i, j | 0 <= i < j < |kept| ensures Msps(kept[i]) !! Msps(kept[j]) {
      assert kept[i] in trees && kept[j] in trees && kept[i] != kept[j];
      var k :| 0 <= k < |trees| && trees[k] == kept[i];
      var l :| 0 <= l < |trees| && trees[l] == kept[j];
    }
  }

  lemma SortedBelow(key: Tree -> Bytes, n: int, trees: seq<Tree>)
    requires Independent(trees)
    ensures RolesOnly(Threshold(n, SortBy(key, trees))) && Msps(Threshold(n, SortBy(key, trees))) == MspsAll(trees)
  {
    SortByPermutes(key, trees);
    BranchesPermute(trees, SortBy(key, trees), []);
    IndependentRoles(SortBy(key, trees));
  }

  lemma ClosedBelow(key: Tree -> Bytes, n: int, trees: seq<Tree>)
    requires Independent(trees)
    ensures Closes(n, trees) && RolesOnly(Closed(key, n, trees)) && Msps(Closed(key, n, trees)) <= MspsAll(trees)
  {
    hide SortBy, KeptFrom, KeptTrees, SeparateTrees;
    if n == |trees| || n == 1 {
      var kept, all := KeptFrom(trees, 0, n == |trees|), n == |trees|;
      KeptIndependent(trees, all);
      KeptWhole(trees, all);
      if |kept| == 1 {
        IndependentRoles(kept);
        MspsAllMeaning(kept);
      } else {
        SortedBelow(key, if all then |kept| else n, kept);
      }
    } else {
      SortedBelow(key, n, trees);
    }
  }

  lemma {:induction false} DisjointSettles(key: Tree -> Bytes, policy: Policy)
    requires Convertible(policy) && Disjoint(policy)
    ensures Settles(key, policy) && Below(Form(key, policy), ConvertedTree(policy))
    decreases policy, 0
  {
    hide Closes, Closed, Independent;
    if policy.ImplicitMeta? {
      DisjointSettleAll(key, policy.subPolicies);
      BelowIndependent(Forms(key, policy.subPolicies), ConvertedTrees(policy.subPolicies));
      ClosedBelow(key, policy.threshold, Forms(key, policy.subPolicies));
    }
  }

  lemma {:induction false} DisjointSettleAll(key: Tree -> Bytes, subs: seq<Policy>)
    requires (forall p | p in subs :: Convertible(p)) && AllDisjoint(subs)
    ensures AllSettle(key, subs)
    ensures forall i | 0 <= i < |subs| :: Below(Forms(key, subs)[i], ConvertedTrees(subs)[i])
    decreases subs, 1
  {
    hide Below, Disjoint;
    if subs != [] {
      DisjointSettles(key, subs[0]);
      DisjointSettleAll(key, subs[1..]);
      assert forall i | 1 <= i < |subs| :: Forms(key, subs)[i] == Forms(key, subs[1..])[i - 1]
                                           && ConvertedTrees(subs)[i] == ConvertedTrees(subs[1..])[i - 1];
    }
  }

  // A policy whose subpolicies are about different MSPs at every boundary is always converted.
  lemma DisjointConverts(w: Wire, policy: Policy, converted: Envelope)
    requires Faithful(w) && IsConversion(policy, converted) && Valid(converted) && Disjoint(policy)
    ensures ResolveConverted(w, policy, converted).Ok?
  {
    hide ResolveConverted, Settles, Disjoint, TreeThresholds, Valid;
    ConversionExact(w, policy, converted);
    ValidPolicy(policy, converted);
    DisjointSettles(KeyOf(w, Directory(w, policy)), policy);
  }

  lemma ValidPolicy(policy: Policy, converted: Envelope)
    requires IsConversion(policy, converted) && Valid(converted)
    ensures NilPrincipal !in Principals(policy) && TreeThresholds(ConvertedTree(policy))
  {
    CompiledThresholds(converted.rule, converted.identities);
    assert NilPrincipal !in Elements(converted.identities);
  }
}
