/** Any number of imports at once. Each creates the system tables in its own transaction, then waits
    for the configuration row. The row is locked from ensureEntry until commit or rollback, and a
    transaction that gets it sees what is committed then, below its own statements. */
module Concurrency {
  import opened Prelude
  import opened Mappings
  import opened Counts
  import opened Routing
  import opened Batch
  import opened Import

  /* The statements of one import. */

  datatype Action =
    | CreateTable(table: Bytes)
    | EnsureConfig(envelope: Bytes)
    | TargetTable(target: Bytes, policy: Bytes)
    | InsertRows(rows: seq<Routed>)
    | CheckCounts(targets: seq<Bytes>, counts: map<Bytes, nat>)

  type Same = (Bytes, Bytes) -> bool

  function ToOption<T>(r: Result<T, ImportError>): Option<T> {
    if r.Ok? then Some(r.value) else None
  }

  predicate CountsMatch(tables: Tables, targets: seq<Bytes>, counts: map<Bytes, nat>) {
    forall t | t in targets :: t in tables && t in counts && |tables[t]| == counts[t] && WrongVersions(tables[t]) == {}
  }

  // ensureEntry for the configuration row.
  function Configure(same: Same, envelope: Bytes, tables: Tables): Option<Tables>
    requires CONFIG in tables
  {
    var row := EnsuredRow(Lookup(tables[CONFIG], CONFIG), envelope, true, same);
    if row.Ok? then Some(tables[CONFIG := tables[CONFIG][CONFIG := row.value]]) else None
  }

  // None is a statement or a check that fails.
  function Apply(same: Same, action: Action, tables: Tables): Option<Tables> {
    match action
    case CreateTable(table) => Some(WithTable(tables, table))
    case EnsureConfig(envelope) => if CONFIG in tables then Configure(same, envelope, tables) else None
    case TargetTable(target, policy) =>
      if META in tables then ToOption(PrepareTarget(tables, target, policy, same)) else None
    case InsertRows(rows) => InsertAll(tables, rows)
    case CheckCounts(targets, counts) => if CountsMatch(tables, targets, counts) then Some(tables) else None
  }

  function RunAll(same: Same, actions: seq<Action>, tables: Tables): Option<Tables> {
    if actions == [] then Some(tables)
    else
      var next := Apply(same, actions[0], tables);
      if next.None? then None else RunAll(same, actions[1..], next.value)
  }

  lemma {:induction false} RunSplit(same: Same, a: seq<Action>, b: seq<Action>, tables: Tables)
    ensures RunAll(same, a + b, tables)
            == match RunAll(same, a, tables) case Some(t) => RunAll(same, b, t) case None => None
  {
    if a == [] {
      assert a + b == b;
    } else {
      assert (a + b)[1..] == a[1..] + b;
      var next := Apply(same, a[0], tables);
      if next.Some? { RunSplit(same, a[1..], b, next.value); }
    }
  }

  // The inputs of one import, with its records cut into batches in any way.
  datatype Plan = Plan(targets: seq<Bytes>, counts: map<Bytes, nat>, policies: map<Bytes, Bytes>, envelope: Bytes,
                       batches: seq<seq<Routed>>)

  function Flatten(batches: seq<seq<Routed>>): seq<Routed> {
    if batches == [] then [] else batches[0] + Flatten(batches[1..])
  }

  // What the earlier steps of an import guarantee about its plan.
  predicate SoundPlan(plan: Plan) {
    && NoDuplicates(plan.targets) && META !in plan.targets && CONFIG !in plan.targets
    && forall i | 0 <= i < |Flatten(plan.batches)| :: Flatten(plan.batches)[i].target in plan.targets
  }

  function TargetActions(targets: seq<Bytes>, policies: map<Bytes, Bytes>): seq<Action> {
    if targets == [] then []
    else [TargetTable(targets[0], PolicyOf(policies, targets[0]))] + TargetActions(targets[1..], policies)
  }

  function BatchActions(batches: seq<seq<Routed>>): seq<Action> {
    if batches == [] then [] else [InsertRows(batches[0])] + BatchActions(batches[1..])
  }

  // The statements before the lock.
  const SCHEMA: seq<Action> := [CreateTable(META), CreateTable(CONFIG)]

  function Actions(plan: Plan): seq<Action> {
    SCHEMA + [EnsureConfig(plan.envelope)] + TargetActions(plan.targets, plan.policies) + BatchActions(plan.batches)
    + [CheckCounts(plan.targets, plan.counts)]
  }

  lemma RunSystem(same: Same, envelope: Bytes, tables: Tables)
    ensures RunAll(same, SCHEMA, tables) == Some(WithTable(WithTable(tables, META), CONFIG))
    ensures RunAll(same, SCHEMA + [EnsureConfig(envelope)], tables) == ToOption(PrepareSystem(tables, envelope, same))
  {
    hide EnsuredRow;
    var last := [EnsureConfig(envelope)];
    assert SCHEMA[1..] == [CreateTable(CONFIG)] && SCHEMA[1..][1..] == [] && last[1..] == [];
    var created := WithTable(WithTable(tables, META), CONFIG);
    assert RunAll(same, SCHEMA[1..], WithTable(tables, META)) == Some(created);
    RunSplit(same, SCHEMA, last, tables);
  }

  lemma {:induction false} RunTargets(same: Same, targets: seq<Bytes>, policies: map<Bytes, Bytes>, tables: Tables)
    requires META in tables
    ensures RunAll(same, TargetActions(targets, policies), tables)
            == ToOption(PrepareTargets(tables, targets, policies, same))
    decreases targets
  {
    hide PrepareTarget;
    if targets != [] {
      assert TargetActions(targets, policies)[1..] == TargetActions(targets[1..], policies);
      var first := PrepareTarget(tables, targets[0], PolicyOf(policies, targets[0]), same);
      if first.Ok? { RunTargets(same, targets[1..], policies, first.value); }
    }
  }

  // Inserting batch by batch is inserting everything.
  lemma {:induction false} RunBatches(same: Same, batches: seq<seq<Routed>>, tables: Tables)
    ensures RunAll(same, BatchActions(batches), tables) == InsertAll(tables, Flatten(batches))
    decreases batches
  {
    if batches != [] {
      assert BatchActions(batches)[1..] == BatchActions(batches[1..]);
      InsertAllAppend(tables, batches[0], Flatten(batches[1..]));
      var next := InsertAll(tables, batches[0]);
      if next.Some? { RunBatches(same, batches[1..], next.value); }
    }
  }

  // What a completed import did, from the tables it started with.
  ghost predicate Completed(plan: Plan, before: Tables, after: Tables) {
    Imported(before, after, Elements(plan.targets), Flatten(plan.batches), plan.policies, plan.envelope)
  }

  lemma RunActions(same: Same, plan: Plan, tables: Tables)
    ensures RunAll(same, Actions(plan), tables)
            == match PrepareAll(tables, plan.targets, plan.policies, plan.envelope, same)
               case Err(_) => None
               case Ok(prepared) =>
                 var filled := InsertAll(prepared, Flatten(plan.batches));
                 if filled.Some? && CountsMatch(filled.value, plan.targets, plan.counts) then filled else None
  {
    hide PrepareSystem, InsertAll, CountsMatch, PrepareTargets;
    var first, targets := SCHEMA + [EnsureConfig(plan.envelope)], TargetActions(plan.targets, plan.policies);
    var batches, last := BatchActions(plan.batches), [CheckCounts(plan.targets, plan.counts)];
    assert Actions(plan) == first + (targets + (batches + last));
    RunSystem(same, plan.envelope, tables);
    RunSplit(same, first, targets + (batches + last), tables);
    var system := PrepareSystem(tables, plan.envelope, same);
    if system.Ok? {
      RunSplit(same, targets, batches + last, system.value);
      RunTargets(same, plan.targets, plan.policies, system.value);
      var prepared := PrepareTargets(system.value, plan.targets, plan.policies, same);
      if prepared.Ok? {
        RunSplit(same, batches, last, prepared.value);
        RunBatches(same, plan.batches, prepared.value);
        var filled := InsertAll(prepared.value, Flatten(plan.batches));
        if filled.Some? { RunCheck(same, plan, filled.value); }
      }
    }
  }

  lemma RunCheck(same: Same, plan: Plan, tables: Tables)
    ensures RunAll(same, [CheckCounts(plan.targets, plan.counts)], tables)
            == if CountsMatch(tables, plan.targets, plan.counts) then Some(tables) else None
  {
    var one := [CheckCounts(plan.targets, plan.counts)];
    assert one[1..] == [];
  }

  // All statements of an import, run alone, do what Imported says.
  lemma ActionsComplete(same: Same, plan: Plan, tables: Tables)
    requires SoundPlan(plan) && RunAll(same, Actions(plan), tables).Some?
    ensures Completed(plan, tables, RunAll(same, Actions(plan), tables).value)
  {
    hide RunAll, PrepareSystem, PrepareTargets, InsertAll, Prepared, Filled, NoCollision, RowsFor, CountsMatch,
         Imported;
    var routed := Flatten(plan.batches);
    RunActions(same, plan, tables);
    PreparedOutcome(tables, plan.targets, plan.policies, plan.envelope, same);
    var system := PrepareSystem(tables, plan.envelope, same).value;
    var prepared := PrepareAll(tables, plan.targets, plan.policies, plan.envelope, same).value;
    PreparedEmpty(system, prepared, Elements(plan.targets), plan.policies);
    InsertIntoPrepared(prepared, routed, Elements(plan.targets));
    FilledIsImported(tables, system, prepared, InsertAll(prepared, routed).value, Elements(plan.targets), routed,
                     plan.policies, plan.envelope, same);
  }

  /* Plans that come from the inputs of an import. */

  // The targets are the counted ones in order, and the batches hold the routed records.
  ghost predicate Derived(plan: Plan, mappings: seq<Mapping>, snapshots: map<Bytes, SnapshotStream>)
    requires AllChannels(mappings, snapshots)
  {
    && plan.targets == KeyOrder(plan.counts.Keys)
    && (forall t :: Count(plan.counts, t) == Total(mappings, snapshots, t) % TWO_64)
    && (forall t :: t in plan.counts <==> Targeted(mappings, snapshots, t))
    && RoutedBy(mappings, snapshots, Flatten(plan.batches))
  }

  lemma AnnouncedPlan(plan: Plan)
    requires plan.targets == KeyOrder(plan.counts.Keys) && Announces(plan.counts, Flatten(plan.batches))
    ensures SoundPlan(plan) && forall t :: t in plan.targets <==> t in plan.counts
  {
    TargetsOf(plan.counts, plan.targets);
  }

  // All statements of an import, run alone, succeed exactly when the tables are ready for it, no
  // two of its records collide and no total passes 64 bits.
  lemma ActionsSucceed(same: Same, plan: Plan, tables: Tables)
    requires plan.targets == KeyOrder(plan.counts.Keys) && Announces(plan.counts, Flatten(plan.batches))
    ensures RunAll(same, Actions(plan), tables).Some? <==>
              && ConfigReady(tables, plan.envelope, same)
              && (forall t | t in plan.targets :: TargetReady(tables, t, plan.policies))
              && NoCollision(Flatten(plan.batches)) && Countable64(Flatten(plan.batches))
  {
    hide RunAll, PrepareSystem, PrepareTargets, InsertAll, Prepared, NoCollision, RowsFor, RoutedTo, WrongVersions,
         TargetReady, ConfigReady, Countable64;
    var routed := Flatten(plan.batches);
    AnnouncedPlan(plan);
    RunActions(same, plan, tables);
    PrepareAllReady(tables, plan.targets, plan.policies, plan.envelope, same);
    PreparedOutcome(tables, plan.targets, plan.policies, plan.envelope, same);
    if PrepareAll(tables, plan.targets, plan.policies, plan.envelope, same).Ok? {
      var system := PrepareSystem(tables, plan.envelope, same).value;
      var prepared := PrepareAll(tables, plan.targets, plan.policies, plan.envelope, same).value;
      PreparedEmpty(system, prepared, Elements(plan.targets), plan.policies);
      InsertIntoPrepared(prepared, routed, Elements(plan.targets));
      if InsertAll(prepared, routed).Some? {
        var filled := InsertAll(prepared, routed).value;
        assert forall t | t in plan.targets :: t in Elements(plan.targets);
        CloseCheckOutcome(filled, plan.targets, plan.counts, routed);
      }
    }
  }

  // The statements of an import succeed exactly when the import does.
  lemma DerivedSucceeds(same: Same, plan: Plan, mappings: seq<Mapping>, snapshots: map<Bytes, SnapshotStream>,
                        tables: Tables)
    requires Checked(mappings, snapshots) && AllChannels(mappings, snapshots) && Derived(plan, mappings, snapshots)
    ensures SoundPlan(plan)
    ensures Importable(tables, mappings, snapshots, Flatten(plan.batches), plan.policies, plan.envelope, same)
            <==> RunAll(same, Actions(plan), tables).Some? && forall m | m in mappings :: Countable(m, snapshots)
  {
    hide RunAll, Total, RouteAll, Actions, TargetReady, ConfigReady, NoCollision, Countable64, Opened, UniqueSources,
         Countable, Targeted, SoundPlan;
    CountsAnnounce(mappings, snapshots, plan.counts, Flatten(plan.batches));
    AnnouncedPlan(plan);
    ActionsSucceed(same, plan, tables);
  }

  /* Any number of imports, one statement at a time. */

  // Where an import is. A starting one has done `done` statements of the schema and waits for the
  // lock; a running one has the lock, has done its first `done` statements and sees `view`.
  datatype Phase = Waiting | Starting(done: nat) | Running(done: nat, view: Tables) | Committed | Aborted

  // `history` is the order of commits.
  datatype State = State(committed: Tables, holder: Option<nat>, phases: seq<Phase>, history: seq<nat>)

  datatype Move = Begin(i: nat) | Create(i: nat) | Acquire(i: nat) | Act(i: nat) | Abort(i: nat) | Commit(i: nat)

  function Start(tables: Tables, imports: nat): State {
    State(tables, None, seq(imports, _ => Waiting), [])
  }

  predicate Enabled(same: Same, plans: seq<Plan>, s: State, move: Move)
    requires |s.phases| == |plans|
  {
    move.i < |plans| &&
    match move
    case Begin(i) => s.phases[i].Waiting?
    case Create(i) => s.phases[i].Starting? && s.phases[i].done < |SCHEMA|
    case Acquire(i) => s.phases[i].Starting? && s.phases[i].done == |SCHEMA| && s.holder.None?
    case Act(i) =>
      s.phases[i].Running? && s.phases[i].done < |Actions(plans[i])|
      && Apply(same, Actions(plans[i])[s.phases[i].done], s.phases[i].view).Some?
    case Abort(i) => s.phases[i].Waiting? || s.phases[i].Starting? || s.phases[i].Running?
    case Commit(i) => s.phases[i].Running? && s.phases[i].done == |Actions(plans[i])|
  }

  // The tables with the system tables created.
  function WithSystem(tables: Tables): Tables {
    WithTable(WithTable(tables, META), CONFIG)
  }

  // An import may abort at any point: a failed statement, a cancelled context, a lost connection.
  function Next(same: Same, plans: seq<Plan>, s: State, move: Move): (t: State)
    requires |s.phases| == |plans| && Enabled(same, plans, s, move)
    ensures |t.phases| == |plans|
  {
    match move
    case Begin(i) => s.(phases := s.phases[i := Starting(0)])
    case Create(i) => s.(phases := s.phases[i := Starting(s.phases[i].done + 1)])
    case Acquire(i) => s.(holder := Some(i), phases := s.phases[i := Running(|SCHEMA|, WithSystem(s.committed))])
    case Act(i) =>
      var phase := s.phases[i];
      s.(phases := s.phases[i := Running(phase.done + 1, Apply(same, Actions(plans[i])[phase.done], phase.view).value)])
    case Abort(i) =>
      s.(holder := if s.phases[i].Running? then None else s.holder, phases := s.phases[i := Aborted])
    case Commit(i) =>
      State(s.phases[i].view, None, s.phases[i := Committed], s.history + [i])
  }

  // The imports of a history, one after the other.
  function Serial(same: Same, plans: seq<Plan>, history: seq<nat>, tables: Tables): Option<Tables>
    requires forall i | i in history :: i < |plans|
  {
    if history == [] then Some(tables)
    else
      var earlier := history[..|history| - 1];
      assert forall i | i in earlier :: i in history;
      assert history[|history| - 1] in history;
      var before := Serial(same, plans, earlier, tables);
      if before.None? then None else RunAll(same, Actions(plans[history[|history| - 1]]), before.value)
  }

  // What every move keeps.
  ghost predicate Inv(same: Same, plans: seq<Plan>, initial: Tables, s: State) {
    && |s.phases| == |plans|
    && (forall i | i in s.history :: i < |plans| && s.phases[i].Committed?)
    && NoDuplicates(s.history)
    && Serial(same, plans, s.history, initial) == Some(s.committed)
    && (forall i | 0 <= i < |plans| && s.phases[i].Running? ::
          s.holder == Some(i) && Progress(same, plans[i], s.committed, s.phases[i]))
    && (s.holder.Some? ==> s.holder.value < |plans| && s.phases[s.holder.value].Running?)
    && (forall i | 0 <= i < |plans| && s.phases[i].Starting? :: s.phases[i].done <= |SCHEMA|)
  }

  // A running import sees its own statements on top of what is committed, and nothing else.
  ghost predicate Progress(same: Same, plan: Plan, committed: Tables, phase: Phase)
    requires phase.Running?
  {
    phase.done <= |Actions(plan)| && RunAll(same, Actions(plan)[..phase.done], committed) == Some(phase.view)
  }

  lemma InvStart(same: Same, plans: seq<Plan>, initial: Tables)
    ensures Inv(same, plans, initial, Start(initial, |plans|))
  {
  }

  lemma ProgressAct(same: Same, plan: Plan, committed: Tables, phase: Phase)
    requires phase.Running? && Progress(same, plan, committed, phase) && phase.done < |Actions(plan)|
    requires Apply(same, Actions(plan)[phase.done], phase.view).Some?
    ensures Progress(same, plan, committed,
                     Running(phase.done + 1, Apply(same, Actions(plan)[phase.done], phase.view).value))
  {
    hide Actions, Apply;
    var actions, k := Actions(plan), phase.done;
    var one := [actions[k]];
    assert actions[..k + 1] == actions[..k] + one && one[1..] == [];
    RunSplit(same, actions[..k], one, committed);
    var next := Apply(same, actions[k], phase.view).value;
    assert RunAll(same, one[1..], next) == Some(next);
  }

  lemma InvNext(same: Same, plans: seq<Plan>, initial: Tables, s: State, move: Move)
    requires Inv(same, plans, initial, s) && Enabled(same, plans, s, move)
    ensures Inv(same, plans, initial, Next(same, plans, s, move))
  {
    hide Actions, Apply, RunAll, Progress;
    var t := Next(same, plans, s, move);
    match move
    case Begin(i) =>
    case Create(i) =>
    case Acquire(i) => ProgressStart(same, plans[i], s.committed);
    case Act(i) => ProgressAct(same, plans[i], s.committed, s.phases[i]);
    case Abort(i) =>
    case Commit(i) => InvCommit(same, plans, initial, s, i);
  }

  lemma InvCommit(same: Same, plans: seq<Plan>, initial: Tables, s: State, i: nat)
    requires Inv(same, plans, initial, s) && Enabled(same, plans, s, Commit(i))
    ensures Inv(same, plans, initial, Next(same, plans, s, Commit(i)))
  {
    hide Actions, Apply, RunAll, Progress, Serial;
    var t := Next(same, plans, s, Commit(i));
    assert i !in s.history && t.history == s.history + [i];
    assert forall j :: j in t.history <==> j in s.history || j == i;
    ProgressDone(same, plans[i], s.committed, s.phases[i]);
    SerialAppend(same, plans, s.history, i, initial);
    assert forall j | 0 <= j < |plans| && j != i :: !s.phases[j].Running?;
  }

  lemma SerialAppend(same: Same, plans: seq<Plan>, history: seq<nat>, i: nat, initial: Tables)
    requires (forall j | j in history :: j < |plans|) && (forall j | j in history + [i] :: j < |plans|)
    requires i < |plans| && Serial(same, plans, history, initial).Some?
    ensures Serial(same, plans, history + [i], initial)
            == RunAll(same, Actions(plans[i]), Serial(same, plans, history, initial).value)
  {
    hide Actions, RunAll;
    assert (history + [i])[..|history|] == history;
  }

  lemma ProgressStart(same: Same, plan: Plan, committed: Tables)
    ensures Progress(same, plan, committed, Running(|SCHEMA|, WithSystem(committed)))
  {
    hide RunAll;
    RunSystem(same, plan.envelope, committed);
    assert Actions(plan)[..|SCHEMA|] == SCHEMA;
  }

  lemma ProgressDone(same: Same, plan: Plan, committed: Tables, phase: Phase)
    requires phase.Running? && Progress(same, plan, committed, phase) && phase.done == |Actions(plan)|
    ensures RunAll(same, Actions(plan), committed) == Some(phase.view)
  {
    hide Actions, RunAll;
    assert Actions(plan)[..phase.done] == Actions(plan);
  }

  // The state after a run of moves; None when a move is not enabled.
  function After(same: Same, plans: seq<Plan>, s: State, moves: seq<Move>): (r: Option<State>)
    requires |s.phases| == |plans|
    ensures r.Some? ==> |r.value.phases| == |plans|
    decreases moves
  {
    if moves == [] then Some(s)
    else if !Enabled(same, plans, s, moves[0]) then None
    else After(same, plans, Next(same, plans, s, moves[0]), moves[1..])
  }

  lemma {:induction false} InvAfter(same: Same, plans: seq<Plan>, initial: Tables, s: State, moves: seq<Move>)
    requires Inv(same, plans, initial, s) && After(same, plans, s, moves).Some?
    ensures Inv(same, plans, initial, After(same, plans, s, moves).value)
    decreases moves
  {
    hide Inv, Enabled, Next;
    if moves != [] {
      InvWellFormed(same, plans, initial, s);
      InvNext(same, plans, initial, s, moves[0]);
      InvAfter(same, plans, initial, Next(same, plans, s, moves[0]), moves[1..]);
    }
  }

  lemma InvWellFormed(same: Same, plans: seq<Plan>, initial: Tables, s: State)
    requires Inv(same, plans, initial, s)
    ensures |s.phases| == |plans|
  {
  }

  // The lock keeps imports apart: at any time at most one is past it.
  lemma OneRuns(same: Same, plans: seq<Plan>, initial: Tables, moves: seq<Move>, i: nat, j: nat)
    requires After(same, plans, Start(initial, |plans|), moves).Some? && i < |plans| && j < |plans|
    requires After(same, plans, Start(initial, |plans|), moves).value.phases[i].Running?
    requires After(same, plans, Start(initial, |plans|), moves).value.phases[j].Running?
    ensures i == j
  {
    InvStart(same, plans, initial);
    InvAfter(same, plans, initial, Start(initial, |plans|), moves);
  }

  // Whatever the interleaving, the committed tables are those of the committed imports run alone,
  // one after the other. Aborted and unfinished imports leave no trace.
  lemma Serializable(same: Same, plans: seq<Plan>, initial: Tables, moves: seq<Move>)
    requires After(same, plans, Start(initial, |plans|), moves).Some?
    ensures var s := After(same, plans, Start(initial, |plans|), moves).value;
            && NoDuplicates(s.history) && (forall i | i in s.history :: i < |plans| && s.phases[i].Committed?)
            && Serial(same, plans, s.history, initial) == Some(s.committed)
  {
    InvStart(same, plans, initial);
    InvAfter(same, plans, initial, Start(initial, |plans|), moves);
  }

  // Imports that fail, abort or never finish leave no trace: two runs from the same tables that
  // commit the same imports in the same order end with the same tables, whatever else was tried.
  lemma UncommittedLeaveNoTrace(same: Same, plans: seq<Plan>, initial: Tables, moves: seq<Move>, others: seq<Move>)
    requires After(same, plans, Start(initial, |plans|), moves).Some?
             && After(same, plans, Start(initial, |plans|), others).Some?
    requires After(same, plans, Start(initial, |plans|), moves).value.history
             == After(same, plans, Start(initial, |plans|), others).value.history
    ensures After(same, plans, Start(initial, |plans|), moves).value.committed
            == After(same, plans, Start(initial, |plans|), others).value.committed
  {
    hide After, Serial;
    Serializable(same, plans, initial, moves);
    Serializable(same, plans, initial, others);
  }

  /* What can still happen. */

  lemma {:induction false} AfterAppend(same: Same, plans: seq<Plan>, s: State, a: seq<Move>, b: seq<Move>)
    requires |s.phases| == |plans| && After(same, plans, s, a).Some?
    ensures After(same, plans, s, a + b) == After(same, plans, After(same, plans, s, a).value, b)
    decreases a
  {
    hide Enabled, Next;
    if a == [] {
      assert a + b == b;
    } else {
      assert (a + b)[1..] == a[1..] + b;
      AfterAppend(same, plans, Next(same, plans, s, a[0]), a[1..], b);
    }
  }

  lemma AfterOne(same: Same, plans: seq<Plan>, s: State, move: Move, more: seq<Move>)
    requires |s.phases| == |plans| && Enabled(same, plans, s, move)
    ensures After(same, plans, s, [move] + more) == After(same, plans, Next(same, plans, s, move), more)
  {
    hide Enabled, Next;
    assert ([move] + more)[1..] == more;
  }

  // The state in which import `i` has committed `tables`, and nobody else has moved.
  function CommittedBy(s: State, i: nat, tables: Tables): State
    requires i < |s.phases|
  {
    State(tables, None, s.phases[i := Committed], s.history + [i])
  }

  // An import that has the lock can do its other statements and commit, if they succeed.
  lemma {:induction false} RunToCommit(same: Same, plans: seq<Plan>, s: State, i: nat) returns (moves: seq<Move>)
    requires |s.phases| == |plans| && i < |plans| && s.phases[i].Running? && s.phases[i].done <= |Actions(plans[i])|
    requires RunAll(same, Actions(plans[i])[s.phases[i].done..], s.phases[i].view).Some?
    ensures After(same, plans, s, moves)
            == Some(CommittedBy(s, i, RunAll(same, Actions(plans[i])[s.phases[i].done..], s.phases[i].view).value))
    decreases |Actions(plans[i])| - s.phases[i].done
  {
    hide Actions, Apply;
    var actions, done := Actions(plans[i]), s.phases[i].done;
    if done == |actions| {
      assert actions[done..] == [];
      AfterOne(same, plans, s, Commit(i), []);
      moves := [Commit(i)] + [];
    } else {
      assert actions[done..][0] == actions[done] && actions[done..][1..] == actions[done + 1..];
      var next := Next(same, plans, s, Act(i));
      var more := RunToCommit(same, plans, next, i);
      AfterOne(same, plans, s, Act(i), more);
      assert next.phases[i := Committed] == s.phases[i := Committed];
      moves := [Act(i)] + more;
    }
  }

  // With the lock free, an import that waits for it can run to its end.
  lemma AcquireAndCommit(same: Same, plans: seq<Plan>, s: State, i: nat) returns (moves: seq<Move>)
    requires |s.phases| == |plans| && i < |plans| && s.phases[i] == Starting(|SCHEMA|) && s.holder.None?
    requires RunAll(same, Actions(plans[i]), s.committed).Some?
    ensures After(same, plans, s, moves) == Some(CommittedBy(s, i, RunAll(same, Actions(plans[i]), s.committed).value))
  {
    hide Apply, RunAll, After;
    var next, plan := Next(same, plans, s, Acquire(i)), plans[i];
    var actions := Actions(plan);
    assert actions == SCHEMA + actions[|SCHEMA|..];
    RunSplit(same, SCHEMA, actions[|SCHEMA|..], s.committed);
    RunSystem(same, plan.envelope, s.committed);
    var more := RunToCommit(same, plans, next, i);
    AfterOne(same, plans, s, Acquire(i), more);
    assert next.phases[i := Committed] == s.phases[i := Committed];
    moves := [Acquire(i)] + more;
  }

  // An import that has not got the lock yet.
  predicate Queued(phase: Phase) {
    phase.Waiting? || (phase.Starting? && phase.done <= |SCHEMA|)
  }

  // From the start of its own statements.
  lemma {:induction false} BeginAndCommit(same: Same, plans: seq<Plan>, s: State, i: nat) returns (moves: seq<Move>)
    requires |s.phases| == |plans| && i < |plans| && Queued(s.phases[i]) && s.holder.None?
    requires RunAll(same, Actions(plans[i]), s.committed).Some?
    ensures After(same, plans, s, moves) == Some(CommittedBy(s, i, RunAll(same, Actions(plans[i]), s.committed).value))
    decreases if s.phases[i].Waiting? then |SCHEMA| + 1 else |SCHEMA| - s.phases[i].done
  {
    hide Apply, RunAll, After, Actions;
    if s.phases[i] == Starting(|SCHEMA|) {
      moves := AcquireAndCommit(same, plans, s, i);
    } else {
      var move := if s.phases[i].Waiting? then Begin(i) else Create(i);
      var next := Next(same, plans, s, move);
      var more := BeginAndCommit(same, plans, next, i);
      AfterOne(same, plans, s, move, more);
      assert next.phases[i := Committed] == s.phases[i := Committed];
      moves := [move] + more;
    }
  }

  // The lock is never lost: whoever holds it can abort, which changes no table.
  lemma FreeLock(same: Same, plans: seq<Plan>, initial: Tables, s: State) returns (moves: seq<Move>)
    requires Inv(same, plans, initial, s)
    ensures After(same, plans, s, moves).Some?
    ensures var t := After(same, plans, s, moves).value;
            && t.committed == s.committed && t.holder.None? && t.history == s.history
            && forall i | 0 <= i < |plans| && !s.phases[i].Running? :: t.phases[i] == s.phases[i]
  {
    hide Serial, Progress;
    moves := [];
    if s.holder.Some? {
      moves := [Abort(s.holder.value)];
      AfterOne(same, plans, s, moves[0], []);
      assert moves == [moves[0]] + [];
    }
  }

  // After any run, an import that has not got the lock yet can still commit, provided its statements
  // succeed on the tables committed so far. What it commits is what they make of these tables.
  lemma CanCommit(same: Same, plans: seq<Plan>, initial: Tables, moves: seq<Move>, i: nat) returns (more: seq<Move>)
    requires After(same, plans, Start(initial, |plans|), moves).Some? && i < |plans|
    requires var s := After(same, plans, Start(initial, |plans|), moves).value;
             (s.phases[i].Waiting? || s.phases[i].Starting?) && RunAll(same, Actions(plans[i]), s.committed).Some?
    ensures var s := After(same, plans, Start(initial, |plans|), moves).value;
            var end := After(same, plans, Start(initial, |plans|), moves + more);
            && end.Some? && end.value.phases[i].Committed? && end.value.history == s.history + [i]
            && Some(end.value.committed) == RunAll(same, Actions(plans[i]), s.committed)
  {
    hide After, RunAll, Actions, Serial, Progress;
    var start := Start(initial, |plans|);
    InvStart(same, plans, initial);
    InvAfter(same, plans, initial, start, moves);
    var s := After(same, plans, start, moves).value;
    var free := FreeLock(same, plans, initial, s);
    var t := After(same, plans, s, free).value;
    var rest := BeginAndCommit(same, plans, t, i);
    AfterAppend(same, plans, s, free, rest);
    AfterAppend(same, plans, start, moves, free + rest);
    more := free + rest;
  }

  // Every serial history is one of the interleavings: imports that succeed one after the other can
  // commit in that order.
  lemma {:induction false} SerialReachable(same: Same, plans: seq<Plan>, initial: Tables, history: seq<nat>)
    returns (moves: seq<Move>)
    requires (forall i | i in history :: i < |plans|) && NoDuplicates(history)
    requires Serial(same, plans, history, initial).Some?
    ensures After(same, plans, Start(initial, |plans|), moves).Some?
    ensures var s := After(same, plans, Start(initial, |plans|), moves).value;
            && s.history == history && Some(s.committed) == Serial(same, plans, history, initial) && s.holder.None?
            && forall j | 0 <= j < |plans| && j !in history :: s.phases[j].Waiting?
    decreases history
  {
    hide RunAll, Actions, Apply;
    moves := [];
    if history != [] {
      var earlier, last := history[..|history| - 1], history[|history| - 1];
      assert history == earlier + [last];
      assert forall i :: i in history <==> i in earlier || i == last;
      var first := SerialReachable(same, plans, initial, earlier);
      var s := After(same, plans, Start(initial, |plans|), first).value;
      assert last in history && last !in earlier;
      var more := BeginAndCommit(same, plans, s, last);
      AfterAppend(same, plans, Start(initial, |plans|), first, more);
      moves := first + more;
    }
  }

  /* Who filled a table. */

  // The rows an import leaves in a table.
  ghost function Output(plan: Plan, table: Bytes): Table {
    RowsFor(Flatten(plan.batches), table)
  }

  // An application table is as it was at the start, its policy too, and no import of the history
  // has it as a target, or it is empty, or it is the output of one import.
  ghost predicate Owned(plans: seq<Plan>, history: seq<nat>, initial: Tables, tables: Tables, table: Bytes)
    requires forall i | i in history :: i < |plans|
    requires table in tables
  {
    || (table in initial && tables[table] == initial[table] && NoneTargets(plans, history, table)
        && Lookup(TableOf(tables, META), table) == Lookup(TableOf(initial, META), table))
    || (tables[table] == map[] && (table in initial ==> initial[table] == map[])
        && forall i | i in history && table in plans[i].targets :: Output(plans[i], table) == map[])
    || ((table in initial ==> initial[table] == map[]) && exists i :: OnlyFrom(plans, history, tables, table, i))
  }

  ghost predicate NoneTargets(plans: seq<Plan>, history: seq<nat>, table: Bytes)
    requires forall i | i in history :: i < |plans|
  {
    forall i | i in history :: table !in plans[i].targets
  }

  // Rows and policy of a table come from one import, and every other import that has it as a
  // target routed nothing to it.
  ghost predicate OnlyFrom(plans: seq<Plan>, history: seq<nat>, tables: Tables, table: Bytes, i: nat)
    requires table in tables && forall j | j in history :: j < |plans|
  {
    && i in history && table in plans[i].targets && tables[table] == Output(plans[i], table) != map[]
    && Lookup(TableOf(tables, META), table) == Some(Row(PolicyOf(plans[i].policies, table), 0))
    && forall j | j in history && j != i && table in plans[j].targets :: Output(plans[j], table) == map[]
  }

  lemma CompletedTable(plan: Plan, before: Tables, after: Tables, table: Bytes)
    requires Completed(plan, before, after) && table !in {CONFIG, META}
    ensures table in plan.targets ==>
              && table in after && after[table] == Output(plan, table) && (table in before ==> before[table] == map[])
              && Lookup(TableOf(after, META), table) == Some(Row(PolicyOf(plan.policies, table), 0))
    ensures table !in plan.targets ==>
              && (table in after <==> table in before) && (table in after ==> after[table] == before[table])
              && Lookup(TableOf(after, META), table) == Lookup(TableOf(before, META), table)
  {
    hide RowsFor, NoCollision;
    assert table in plan.targets <==> table in Elements(plan.targets);
  }

  lemma OwnedStep(plans: seq<Plan>, history: seq<nat>, last: nat, initial: Tables, before: Tables, after: Tables,
                  table: Bytes)
    requires last < |plans| && last !in history && (forall i | i in history :: i < |plans|)
    requires Completed(plans[last], before, after) && table in after && table !in {CONFIG, META}
    requires table in initial ==> table in before
    requires if table in before then Owned(plans, history, initial, before, table)
             else forall i | i in history :: table !in plans[i].targets
    ensures Owned(plans, history + [last], initial, after, table)
  {
    hide Output, Completed;
    var all := history + [last];
    assert forall i :: i in all <==> i in history || i == last;
    CompletedTable(plans[last], before, after, table);
    if table in plans[last].targets {
      OwnedByLast(plans, history, last, initial, before, after, table);
    } else {
      if i :| OnlyFrom(plans, history, before, table, i) { assert OnlyFrom(plans, all, after, table, i); }
    }
  }

  lemma OwnedByLast(plans: seq<Plan>, history: seq<nat>, last: nat, initial: Tables, before: Tables, after: Tables,
                    table: Bytes)
    requires last < |plans| && last !in history && (forall i | i in history :: i < |plans|)
    requires table in plans[last].targets && table in after && after[table] == Output(plans[last], table)
    requires Lookup(TableOf(after, META), table) == Some(Row(PolicyOf(plans[last].policies, table), 0))
    requires table in initial ==> table in before
    requires if table in before then before[table] == map[] && Owned(plans, history, initial, before, table)
             else forall i | i in history :: table !in plans[i].targets
    ensures Owned(plans, history + [last], initial, after, table)
  {
    hide Output;
    var all := history + [last];
    assert forall i :: i in all <==> i in history || i == last;
    assert table in initial ==> initial[table] == map[];
    assert forall i | i in history && table in plans[i].targets :: Output(plans[i], table) == map[];
    if after[table] != map[] { assert OnlyFrom(plans, all, after, table, last); }
  }

  lemma {:induction false} SerialOwned(same: Same, plans: seq<Plan>, history: seq<nat>, initial: Tables, table: Bytes)
    requires (forall i | i in history :: i < |plans| && SoundPlan(plans[i])) && NoDuplicates(history)
    requires Serial(same, plans, history, initial).Some? && table !in {CONFIG, META}
    ensures var tables := Serial(same, plans, history, initial).value;
            && (table in initial ==> table in tables)
            && if table in tables then Owned(plans, history, initial, tables, table)
               else forall i | i in history :: table !in plans[i].targets
    decreases history
  {
    hide RunAll, Actions, SoundPlan, Owned;
    if history == [] {
      OwnedStart(plans, initial, table);
    } else {
      var earlier, last := history[..|history| - 1], history[|history| - 1];
      assert history == earlier + [last];
      SerialOwned(same, plans, earlier, initial, table);
      var before := Serial(same, plans, earlier, initial).value;
      var after := Serial(same, plans, history, initial).value;
      ActionsComplete(same, plans[last], before);
      CompletedKeys(plans[last], before, after, table);
      if table in after { OwnedStep(plans, earlier, last, initial, before, after, table); }
    }
  }

  lemma OwnedStart(plans: seq<Plan>, initial: Tables, table: Bytes)
    ensures table in initial ==> Owned(plans, [], initial, initial, table)
  {
  }

  lemma CompletedKeys(plan: Plan, before: Tables, after: Tables, table: Bytes)
    requires Completed(plan, before, after)
    ensures (table in before ==> table in after) && (table in plan.targets ==> table in after)
  {
    assert table in plan.targets ==> table in Elements(plan.targets);
  }

  // After any run of any number of imports, an application table that was empty or absent at
  // the start and now holds rows is the output of exactly one committed import.
  lemma OneImportPerTable(same: Same, plans: seq<Plan>, initial: Tables, moves: seq<Move>, table: Bytes)
    requires forall i | 0 <= i < |plans| :: SoundPlan(plans[i])
    requires After(same, plans, Start(initial, |plans|), moves).Some?
    requires var s := After(same, plans, Start(initial, |plans|), moves).value;
             table in s.committed && s.committed[table] != map[] && table !in {CONFIG, META}
    requires table in initial ==> initial[table] == map[]
    ensures var s := After(same, plans, Start(initial, |plans|), moves).value;
            && (forall i | i in s.history :: i < |plans|)
            && exists i :: OnlyFrom(plans, s.history, s.committed, table, i)
  {
    hide SoundPlan;
    Serializable(same, plans, initial, moves);
    var s := After(same, plans, Start(initial, |plans|), moves).value;
    SerialOwned(same, plans, s.history, initial, table);
  }
}
