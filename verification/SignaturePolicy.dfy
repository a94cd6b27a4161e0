/** Signature policies as Fabric evaluates them: an N-of tree over principals whose leaves
    consume endorsing identities in rule order. */
module SignaturePolicy {
  import opened Prelude

  datatype MspRole = Member | Admin | Client | Peer | Orderer | UnknownRole(code: int)

  // RolePrincipal is a ROLE principal whose payload decodes; `rest` is whatever else its bytes
  // hold. OtherPrincipal is every other classification and a ROLE payload that does not decode.
  datatype Principal =
    | RolePrincipal(msp: string, role: MspRole, rest: Bytes)
    | OtherPrincipal(classification: int, payload: Bytes)
    | NilPrincipal

  // The last three are the malformed nodes a protobuf rule can hold: a nil rule, a nil
  // threshold and a rule of no known type.
  datatype Rule =
    | SignedBy(index: int)
    | NOutOf(n: int, rules: seq<Rule>)
    | NilRule
    | NilThreshold
    | UnsetRule

  datatype Envelope = Envelope(version: int, rule: Rule, identities: seq<Principal>)

  // An endorsing identity is its MSP and the principals it satisfies.
  datatype Identity = Identity(msp: string, satisfies: Principal -> bool)

  // A ROLE principal is satisfied only inside its MSP, and a peer is a member.
  ghost predicate Genuine(id: Identity) {
    && (forall p: Principal :: p.RolePrincipal? && p.msp != "" && id.satisfies(p) ==> p.msp == id.msp)
    && (forall p: Principal, q: Principal ::
          (id.satisfies(p) && p.RolePrincipal? && q.RolePrincipal? && p.msp == q.msp != ""
           && p.role == Peer && q.role == Member) ==> id.satisfies(q))
  }

  ghost predicate AllGenuine(signers: seq<Identity>) {
    forall i :: 0 <= i < |signers| ==> Genuine(signers[i])
  }

  /* Compilation: a rule with its principals in place of indexes. */

  datatype Tree = Leaf(principal: Principal) | Threshold(n: int, branches: seq<Tree>)

  predicate InRange(rule: Rule, count: nat) {
    match rule
    case SignedBy(i) => 0 <= i < count
    case NOutOf(_, rules) => forall r | r in rules :: InRange(r, count)
    case _ => false
  }

  function Compile(rule: Rule, identities: seq<Principal>): Tree
    requires InRange(rule, |identities|)
    decreases rule, 0
  {
    match rule
    case SignedBy(i) => Leaf(identities[i])
    case NOutOf(n, rules) => Threshold(n, CompileAll(rules, identities))
  }

  function CompileAll(rules: seq<Rule>, identities: seq<Principal>): (trees: seq<Tree>)
    requires forall r | r in rules :: InRange(r, |identities|)
    ensures |trees| == |rules|
    ensures forall i :: 0 <= i < |rules| ==> trees[i] == Compile(rules[i], identities)
    decreases rules, 1
  {
    if rules == [] then []
    else [Compile(rules[0], identities)] + CompileAll(rules[1..], identities)
  }

  /* Evaluation. */

  datatype Verdict = Verdict(ok: bool, marks: seq<bool>)
  datatype Tally = Tally(count: nat, marks: seq<bool>)

  function Clear(count: nat): (used: seq<bool>)
    ensures |used| == count && forall i :: 0 <= i < count ==> !used[i]
  {
    seq(count, _ => false)
  }

  // The first unused identity satisfying the principal.
  function FirstUnused(p: Principal, signers: seq<Identity>, used: seq<bool>, from: nat): (i: nat)
    requires |used| == |signers| && from <= |signers|
    ensures from <= i <= |signers|
    ensures i < |signers| ==> !used[i] && signers[i].satisfies(p)
    ensures forall k :: from <= k < i ==> used[k] || !signers[k].satisfies(p)
    decreases |signers| - from
  {
    if from == |signers| || (!used[from] && signers[from].satisfies(p)) then from
    else FirstUnused(p, signers, used, from + 1)
  }

  function Eval(tree: Tree, signers: seq<Identity>, used: seq<bool>): (v: Verdict)
    requires |used| == |signers|
    ensures |v.marks| == |signers|
    decreases tree, 0
  {
    match tree
    case Leaf(p) =>
      var i := FirstUnused(p, signers, used, 0);
      if i < |signers| then Verdict(true, used[i := true]) else Verdict(false, used)
    case Threshold(n, branches) =>
      var tally := EvalAll(branches, signers, used);
      Verdict(tally.count >= n, tally.marks)
  }

  // Every branch works on a copy of the marks; the copy is kept when the branch succeeds.
  function EvalAll(branches: seq<Tree>, signers: seq<Identity>, used: seq<bool>): (t: Tally)
    requires |used| == |signers|
    ensures |t.marks| == |signers|
    ensures t.count <= |branches|
    decreases branches, 1
  {
    if branches == [] then Tally(0, used)
    else
      var head := Eval(branches[0], signers, used);
      var tail := EvalAll(branches[1..], signers, if head.ok then head.marks else used);
      Tally((if head.ok then 1 else 0) + tail.count, tail.marks)
  }

  predicate Alone(tree: Tree, signers: seq<Identity>) {
    Eval(tree, signers, Clear(|signers|)).ok
  }

  predicate Accepts(envelope: Envelope, signers: seq<Identity>)
    requires InRange(envelope.rule, |envelope.identities|)
  {
    Alone(Compile(envelope.rule, envelope.identities), signers)
  }

  // How many branches accept when each sees the whole list of identities.
  function CountAlone(branches: seq<Tree>, signers: seq<Identity>): (c: nat)
    ensures c <= |branches|
  {
    if branches == [] then 0
    else (if Alone(branches[0], signers) then 1 else 0) + CountAlone(branches[1..], signers)
  }

  /* Which MSPs a tree can consume. */

  function Msps(tree: Tree): set<string>
    decreases tree, 0
  {
    match tree
    case Leaf(p) => if p.RolePrincipal? then {p.msp} else {}
    case Threshold(_, branches) => MspsAll(branches)
  }

  function MspsAll(branches: seq<Tree>): set<string>
    decreases branches, 1
  {
    if branches == [] then {} else Msps(branches[0]) + MspsAll(branches[1..])
  }

  // Every leaf is a ROLE principal naming an MSP.
  predicate RolesOnly(tree: Tree)
    decreases tree, 0
  {
    match tree
    case Leaf(p) => p.RolePrincipal? && p.msp != ""
    case Threshold(_, branches) => RolesOnlyAll(branches)
  }

  predicate RolesOnlyAll(branches: seq<Tree>)
    decreases branches, 1
  {
    branches == [] || (RolesOnly(branches[0]) && RolesOnlyAll(branches[1..]))
  }

  // The principals at the leaves.
  function Leaves(tree: Tree): set<Principal>
    decreases tree, 0
  {
    match tree
    case Leaf(p) => {p}
    case Threshold(_, branches) => LeavesAll(branches)
  }

  function LeavesAll(branches: seq<Tree>): set<Principal>
    decreases branches, 1
  {
    if branches == [] then {} else Leaves(branches[0]) + LeavesAll(branches[1..])
  }

  // Both are about the leaves alone: roles with an MSP, and the MSPs of the roles.
  lemma {:induction false} LeavesExact(tree: Tree)
    ensures RolesOnly(tree) <==> forall p | p in Leaves(tree) :: p.RolePrincipal? && p.msp != ""
    ensures forall m :: m in Msps(tree) <==> exists p | p in Leaves(tree) :: p.RolePrincipal? && p.msp == m
    decreases tree, 0
  {
    match tree
    case Leaf(p) => assert Leaves(tree) == {p};
    case Threshold(_, branches) => LeavesAllExact(branches);
  }

  lemma {:induction false} LeavesAllExact(branches: seq<Tree>)
    ensures RolesOnlyAll(branches) <==> forall p | p in LeavesAll(branches) :: p.RolePrincipal? && p.msp != ""
    ensures forall m :: m in MspsAll(branches)
              <==> exists p | p in LeavesAll(branches) :: p.RolePrincipal? && p.msp == m
    decreases branches, 1
  {
    if branches != [] {
      LeavesExact(branches[0]);
      LeavesAllExact(branches[1..]);
      assert forall p :: p in LeavesAll(branches) <==> p in Leaves(branches[0]) || p in LeavesAll(branches[1..]);
    }
  }

  // No branch can consume an identity that another branch wants.
  predicate Independent(branches: seq<Tree>) {
    branches == []
    || (RolesOnly(branches[0]) && Msps(branches[0]) !! MspsAll(branches[1..]) && Independent(branches[1..]))
  }

  lemma {:induction false} IndependentMeaning(branches: seq<Tree>)
    ensures Independent(branches) <==>
            && (forall i :: 0 <= i < |branches| ==> RolesOnly(branches[i]))
            && (forall i, j :: 0 <= i < j < |branches| ==> Msps(branches[i]) !! Msps(branches[j]))
  {
    if branches != [] {
      var rest := branches[1..];
      assert forall i :: 1 <= i < |branches| ==> branches[i] == rest[i - 1];
      assert forall i :: 0 <= i < |rest| ==> rest[i] == branches[i + 1];
      IndependentMeaning(rest);
      MspsAllMeaning(rest);
      if Msps(branches[0]) !! MspsAll(rest) {
      } else {
        var m :| m in Msps(branches[0]) && m in MspsAll(rest);
        var k :| 0 <= k < |rest| && m in Msps(rest[k]);
        assert !(Msps(branches[0]) !! Msps(branches[k + 1]));
      }
    }
  }

  lemma {:induction false} MspsAllMeaning(branches: seq<Tree>)
    ensures forall i :: 0 <= i < |branches| ==> Msps(branches[i]) <= MspsAll(branches)
    ensures forall m :: m in MspsAll(branches) ==> exists i :: 0 <= i < |branches| && m in Msps(branches[i])
  {
    if branches != [] {
      var rest := branches[1..];
      MspsAllMeaning(rest);
      forall m | m in MspsAll(branches) ensures exists i :: 0 <= i < |branches| && m in Msps(branches[i]) {
        if m in MspsAll(rest) {
          var k :| 0 <= k < |rest| && m in Msps(rest[k]);
          assert rest[k] == branches[k + 1];
        }
      }
      forall i | 0 <= i < |branches| ensures Msps(branches[i]) <= MspsAll(branches) {
        if i > 0 { assert branches[i] == rest[i - 1]; }
      }
    }
  }

  /* The frame of an evaluation. */

  // The two mark lists agree on the identities of the given MSPs.
  ghost predicate AgreeOn(msps: set<string>, signers: seq<Identity>, a: seq<bool>, b: seq<bool>)
    requires |a| == |b| == |signers|
  {
    forall i :: 0 <= i < |signers| && signers[i].msp in msps ==> a[i] == b[i]
  }

  // The two mark lists agree on every identity outside the given MSPs.
  ghost predicate AgreeOutside(msps: set<string>, signers: seq<Identity>, a: seq<bool>, b: seq<bool>)
    requires |a| == |b| == |signers|
  {
    forall i :: 0 <= i < |signers| && signers[i].msp !in msps ==> a[i] == b[i]
  }

  // A tree over the MSPs S marks only identities of S, and what it decides and marks there
  // depends only on the marks of S.
  lemma {:induction false} EvalFrame(tree: Tree, msps: set<string>, signers: seq<Identity>,
                                     a: seq<bool>, b: seq<bool>)
    requires |a| == |b| == |signers| && AllGenuine(signers)
    requires RolesOnly(tree) && Msps(tree) <= msps && AgreeOn(msps, signers, a, b)
    ensures Eval(tree, signers, a).ok == Eval(tree, signers, b).ok
    ensures AgreeOn(msps, signers, Eval(tree, signers, a).marks, Eval(tree, signers, b).marks)
    ensures AgreeOutside(msps, signers, Eval(tree, signers, a).marks, a)
    decreases tree, 0
  {
    match tree
    case Leaf(p) => FirstUnusedFrame(p, signers, a, b, 0);
    case Threshold(_, branches) => EvalAllFrame(branches, msps, signers, a, b);
  }

  lemma {:induction false} EvalAllFrame(branches: seq<Tree>, msps: set<string>, signers: seq<Identity>,
                                        a: seq<bool>, b: seq<bool>)
    requires |a| == |b| == |signers| && AllGenuine(signers)
    requires RolesOnlyAll(branches) && MspsAll(branches) <= msps && AgreeOn(msps, signers, a, b)
    ensures EvalAll(branches, signers, a).count == EvalAll(branches, signers, b).count
    ensures AgreeOn(msps, signers, EvalAll(branches, signers, a).marks, EvalAll(branches, signers, b).marks)
    ensures AgreeOutside(msps, signers, EvalAll(branches, signers, a).marks, a)
    decreases branches, 1
  {
    if branches != [] {
      EvalFrame(branches[0], msps, signers, a, b);
      var x, y := Eval(branches[0], signers, a), Eval(branches[0], signers, b);
      EvalAllFrame(branches[1..], msps, signers, if x.ok then x.marks else a, if y.ok then y.marks else b);
    }
  }

  lemma {:induction false} FirstUnusedFrame(p: Principal, signers: seq<Identity>,
                                            a: seq<bool>, b: seq<bool>, from: nat)
    requires |a| == |b| == |signers| && AllGenuine(signers) && from <= |signers|
    requires p.RolePrincipal? && p.msp != "" && AgreeOn({p.msp}, signers, a, b)
    ensures FirstUnused(p, signers, a, from) == FirstUnused(p, signers, b, from)
    ensures var i := FirstUnused(p, signers, a, from); i < |signers| ==> signers[i].msp == p.msp
    decreases |signers| - from
  {
    if from < |signers| {
      assert Genuine(signers[from]);
      if !(!a[from] && signers[from].satisfies(p)) {
        FirstUnusedFrame(p, signers, a, b, from + 1);
      }
    }
  }

  // Consuming evaluation of independent branches counts the branches that accept on their own.
  lemma {:induction false} IndependentCount(branches: seq<Tree>, signers: seq<Identity>, used: seq<bool>)
    requires |used| == |signers| && AllGenuine(signers) && Independent(branches)
    requires AgreeOn(MspsAll(branches), signers, used, Clear(|signers|))
    ensures EvalAll(branches, signers, used).count == CountAlone(branches, signers)
  {
    if branches != [] {
      var msps := Msps(branches[0]);
      EvalFrame(branches[0], msps, signers, used, Clear(|signers|));
      var head := Eval(branches[0], signers, used);
      IndependentCount(branches[1..], signers, if head.ok then head.marks else used);
    }
  }

  /* Reordering the branches of a boundary. */

  lemma {:induction false} SplitBranches(a: seq<Tree>, b: seq<Tree>, signers: seq<Identity>)
    ensures MspsAll(a + b) == MspsAll(a) + MspsAll(b)
    ensures CountAlone(a + b, signers) == CountAlone(a, signers) + CountAlone(b, signers)
    ensures Independent(a + b) <==> Independent(a) && Independent(b) && MspsAll(a) !! MspsAll(b)
  {
    if a == [] {
      assert a + b == b;
    } else {
      assert (a + b)[1..] == a[1..] + b;
      SplitBranches(a[1..], b, signers);
    }
  }

  lemma {:induction false} BranchesPermute(a: seq<Tree>, b: seq<Tree>, signers: seq<Identity>)
    requires multiset(a) == multiset(b)
    ensures MspsAll(a) == MspsAll(b)
    ensures CountAlone(a, signers) == CountAlone(b, signers)
    ensures Independent(a) <==> Independent(b)
  {
    assert |multiset(a)| == |multiset(b)|;
    if a != [] {
      var k := MultisetHead(a, b);
      var pre, x, post := b[..k], [b[k]], b[k + 1..];
      assert b == pre + (x + post);
      assert a == x + a[1..];
      BranchesPermute(a[1..], pre + post, signers);
      SplitBranches(x, a[1..], signers);
      SplitBranches(pre, post, signers);
      SplitBranches(x, post, signers);
      SplitBranches(pre, x + post, signers);
    }
  }

  // Any order of independent branches gives the same verdict, and that verdict is the count of
  // branches that accept on their own.
  lemma IndependentReorder(n: int, a: seq<Tree>, b: seq<Tree>, signers: seq<Identity>)
    requires AllGenuine(signers) && Independent(a) && multiset(a) == multiset(b)
    ensures Alone(Threshold(n, a), signers) == Alone(Threshold(n, b), signers)
    ensures Alone(Threshold(n, b), signers) == (CountAlone(a, signers) >= n)
  {
    BranchesPermute(a, b, signers);
    IndependentCount(a, signers, Clear(|signers|));
    IndependentCount(b, signers, Clear(|signers|));
  }
}
