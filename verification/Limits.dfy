/** What the conversion must not rely on: concrete policies for which a plausible rewrite would
    change the accepted identity lists, and where the conversion stops short. */
module Limits {
  import opened Prelude
  import opened SignaturePolicy
  import opened CanonicalPolicy
  import opened ImplicitMeta

  // An identity of one MSP with one role: a member, and whatever the role says.
  function Endorser(msp: string, role: MspRole): Identity {
    Identity(msp, (p: Principal) => p.RolePrincipal? && p.msp == msp && (p.role == Member || p.role == role))
  }

  lemma EvalStep(a: Tree, rest: seq<Tree>, signers: seq<Identity>, used: seq<bool>)
    requires |used| == |signers|
    ensures var head := Eval(a, signers, used);
            var tail := EvalAll(rest, signers, if head.ok then head.marks else used);
            EvalAll([a] + rest, signers, used) == Tally((if head.ok then 1 else 0) + tail.count, tail.marks)
    ensures EvalAll([], signers, used) == Tally(0, used)
  {
    hide Eval;
    assert ([a] + rest)[1..] == rest;
  }

  lemma EvalThreshold(n: int, branches: seq<Tree>, signers: seq<Identity>, used: seq<bool>)
    requires |used| == |signers|
    ensures var tally := EvalAll(branches, signers, used);
            Eval(Threshold(n, branches), signers, used) == Verdict(tally.count >= n, tally.marks)
  {
    hide EvalAll;
  }

  lemma EvalTwo(n: int, a: Tree, b: Tree, signers: seq<Identity>, used: seq<bool>)
    requires |used| == |signers|
    ensures var x := Eval(a, signers, used);
            var y := Eval(b, signers, if x.ok then x.marks else used);
            Eval(Threshold(n, [a, b]), signers, used)
            == Verdict((if x.ok then 1 else 0) + (if y.ok then 1 else 0) >= n,
                       if y.ok then y.marks else if x.ok then x.marks else used)
  {
    hide Eval, EvalAll;
    EvalThreshold(n, [a, b], signers, used);
    var x := Eval(a, signers, used);
    var marks := if x.ok then x.marks else used;
    var y := Eval(b, signers, marks);
    EvalStep(a, [b], signers, used);
    EvalStep(b, [], signers, marks);
    EvalStep(b, [], signers, if y.ok then y.marks else marks);
    assert [b] + [] == [b] && [a] + [b] == [a, b];
  }

  // The leaf takes identity `i`, or none when `i` is past the end.
  lemma EvalLeaf(p: Principal, signers: seq<Identity>, used: seq<bool>, i: nat)
    requires |used| == |signers| && i <= |signers|
    requires forall k | 0 <= k < i :: used[k] || !signers[k].satisfies(p)
    requires i < |signers| ==> !used[i] && signers[i].satisfies(p)
    ensures Eval(Leaf(p), signers, used)
            == if i < |signers| then Verdict(true, used[i := true]) else Verdict(false, used)
  {
    var j := FirstUnused(p, signers, used, 0);
    assert j == i;
  }

  // Explicit rules consume identities in order: swapping two branches of one MSP changes what is
  // accepted. Hence branches are sorted only once they are known to be independent.
  lemma ExplicitOrderMatters(msp: string)
    ensures var peer, member := RolePrincipal(msp, Peer, []), RolePrincipal(msp, Member, []);
            var signers := [Endorser(msp, Peer), Endorser(msp, Client)];
            && AllGenuine(signers)
            && Alone(Threshold(2, [Leaf(peer), Leaf(member)]), signers)
            && !Alone(Threshold(2, [Leaf(member), Leaf(peer)]), signers)
  {
    hide Eval;
    var peer, member := RolePrincipal(msp, Peer, []), RolePrincipal(msp, Member, []);
    var signers := [Endorser(msp, Peer), Endorser(msp, Client)];
    var clear, first := Clear(2), [true, false];
    assert clear[0 := true] == first;
    EvalLeaf(peer, signers, clear, 0);
    EvalLeaf(member, signers, first, 1);
    EvalTwo(2, Leaf(peer), Leaf(member), signers, clear);
    EvalLeaf(member, signers, clear, 0);
    EvalLeaf(peer, signers, first, 2);
    EvalTwo(2, Leaf(member), Leaf(peer), signers, clear);
  }

  function MemberOf(msp: string): Principal {
    RolePrincipal(msp, Member, [])
  }

  // Consuming evaluation is not monotone: one more endorsement can turn acceptance into rejection.
  lemma MoreSignersCanReject()
    ensures var a, b, c := Leaf(MemberOf("A")), Leaf(MemberOf("B")), Leaf(MemberOf("C"));
            var rule := Threshold(2, [Threshold(1, [Threshold(2, [a, b]), c]), b]);
            var fewer := [Endorser("C", Peer), Endorser("B", Peer)];
            var more := fewer + [Endorser("A", Peer)];
            AllGenuine(more) && Alone(rule, fewer) && !Alone(rule, more)
  {
    hide Eval;
    var a, b, c := MemberOf("A"), MemberOf("B"), MemberOf("C");
    assert "A"[0] != "B"[0] && "B"[0] != "C"[0] && "A"[0] != "C"[0];
    var both := Threshold(2, [Leaf(a), Leaf(b)]);
    var either := Threshold(1, [both, Leaf(c)]);
    var two := [Endorser("C", Peer), Endorser("B", Peer)];
    var none := Clear(2);
    assert none[1 := true] == [false, true] && none[0 := true] == [true, false]
           && [true, false][1 := true] == [true, true];
    EvalLeaf(a, two, none, 2);
    EvalLeaf(b, two, none, 1);
    EvalTwo(2, Leaf(a), Leaf(b), two, none);
    EvalLeaf(c, two, none, 0);
    EvalTwo(1, both, Leaf(c), two, none);
    EvalLeaf(b, two, [true, false], 1);
    EvalTwo(2, either, Leaf(b), two, none);
    var three, empty := two + [Endorser("A", Peer)], Clear(3);
    assert three[0] == two[0] && three[1] == two[1] && three[2] == Endorser("A", Peer);
    assert empty[2 := true] == [false, false, true] && [false, false, true][1 := true] == [false, true, true];
    assert [false, true, true][0 := true] == [true, true, true];
    EvalLeaf(a, three, empty, 2);
    EvalLeaf(b, three, [false, false, true], 1);
    EvalTwo(2, Leaf(a), Leaf(b), three, empty);
    EvalLeaf(c, three, [false, true, true], 0);
    EvalTwo(1, both, Leaf(c), three, empty);
    EvalLeaf(b, three, [true, true, true], 3);
    EvalTwo(2, either, Leaf(b), three, empty);
  }

  /* Conversion is sound but not complete. */

  function OnePrincipal(p: Principal): Policy {
    Signature(Envelope(0, SignedBy(0), [p]))
  }

  // Signature subpolicies are left alone.
  lemma {:induction false} SignaturesKept(w: Wire, sources: seq<Policy>, rules: seq<Rule>, identities: seq<Principal>)
    requires |sources| == |rules| && AllInRange(rules, |identities|) && forall p | p in sources :: p.Signature?
    ensures NormalizeAll(w, sources, rules, identities) == Ok(rules)
    decreases sources
  {
    if sources != [] {
      SignaturesKept(w, sources[1..], rules[1..], identities);
      assert sources[0] in sources && rules == [rules[0]] + rules[1..];
    }
  }

  lemma DuplicatesCounted(p: Principal, q: Principal, signers: seq<Identity>)
    ensures PolicyAccepts(ImplicitMeta(2, [OnePrincipal(p), OnePrincipal(p), OnePrincipal(q)]), signers)
            == PolicyAccepts(OnePrincipal(p), signers)
  {
    hide Accepts;
    var x, y := OnePrincipal(p), OnePrincipal(q);
    assert [x, x, y][1..] == [x, y] && [x, y][1..] == [y] && [y][1..] == [];
    assert CountAccepting([], signers) == 0;
    assert CountAccepting([y], signers) == if PolicyAccepts(y, signers) then 1 else 0;
    assert CountAccepting([x, y], signers)
           == (if PolicyAccepts(x, signers) then 1 else 0) + CountAccepting([y], signers);
  }

  // 2-of(P, P, Q) accepts what P accepts, yet it is refused: duplicates under a threshold between
  // ANY and ALL are not merged, and two equal branches compete for identities.
  lemma ConversionIncomplete(w: Wire, p: Principal, q: Principal, converted: Envelope, signers: seq<Identity>)
    requires Faithful(w) && p.RolePrincipal? && q.RolePrincipal?
    requires IsConversion(ImplicitMeta(2, [OnePrincipal(p), OnePrincipal(p), OnePrincipal(q)]), converted)
    ensures PolicyAccepts(ImplicitMeta(2, [OnePrincipal(p), OnePrincipal(p), OnePrincipal(q)]), signers)
            == PolicyAccepts(OnePrincipal(p), signers)
    ensures ResolveConverted(w, ImplicitMeta(2, [OnePrincipal(p), OnePrincipal(p), OnePrincipal(q)]), converted)
            == Err(OverlappingBranches)
  {
    hide Canonical, CompileAll, NormalizeAll, Independent;
    DuplicatesCounted(p, q, signers);
    var subs := [OnePrincipal(p), OnePrincipal(p), OnePrincipal(q)];
    var leaves := [Leaf(p), Leaf(p), Leaf(q)];
    ThreeLeaves(p, q);
    LeavesOnly(converted, leaves);
    CanonicalPreserves(w, converted);
    var e := Canonical(w, converted).value;
    LeavesOnly(e, leaves);
    SignaturesKept(w, subs, e.rule.rules, e.identities);
    SharedMsp(p, q);
  }

  lemma ThreeLeaves(p: Principal, q: Principal)
    requires p.RolePrincipal? && q.RolePrincipal?
    ensures var policy := ImplicitMeta(2, [OnePrincipal(p), OnePrincipal(p), OnePrincipal(q)]);
            && ConvertedTree(policy) == Threshold(2, [Leaf(p), Leaf(p), Leaf(q)])
            && NilPrincipal !in Principals(policy)
  {
    var x, y := OnePrincipal(p), OnePrincipal(q);
    assert ConvertedTree(x) == Leaf(p) && ConvertedTree(y) == Leaf(q);
    assert ConvertedTrees([x, x, y]) == [Leaf(p), Leaf(p), Leaf(q)];
    assert [x, x, y][1..] == [x, y] && [x, y][1..] == [y] && [y][1..] == [];
    assert PrincipalsAll([y]) == Principals(y) && PrincipalsAll([x, y]) == Principals(x) + PrincipalsAll([y]);
  }

  // A rule that compiles to 2-of leaves is one.
  lemma LeavesOnly(e: Envelope, leaves: seq<Tree>)
    requires InRange(e.rule, |e.identities|) && Compile(e.rule, e.identities) == Threshold(2, leaves)
    requires |leaves| >= 2 && forall t | t in leaves :: t.Leaf?
    ensures e.rule.NOutOf? && e.rule.n == 2 && CompileAll(e.rule.rules, e.identities) == leaves
            && ValidThresholds(e.rule)
  {
    var rules := e.rule.rules;
    forall r | r in rules ensures r.SignedBy? {
      var i :| 0 <= i < |rules| && rules[i] == r;
      assert Compile(r, e.identities) == leaves[i] && leaves[i] in leaves;
    }
  }

  lemma SharedMsp(p: Principal, q: Principal)
    requires p.RolePrincipal?
    ensures !Independent([Leaf(p), Leaf(p), Leaf(q)])
  {
    var branches := [Leaf(p), Leaf(p), Leaf(q)];
    IndependentMeaning(branches);
    assert p.msp in Msps(branches[0]) && p.msp in Msps(branches[1]);
  }
}
