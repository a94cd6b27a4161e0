/** Import: prepare the target tables, insert the routed records, check the counts, and commit all
    of it or none. */
module Import {
  import opened Prelude
  import opened Varint
  import opened Snapshot
  import opened StreamTheorems
  import opened Mappings
  import opened Counts
  import opened Routing
  import opened RoutedRows
  import opened Batch

  datatype ImportError =
    | InvalidMappings(invalid: MappingError) | NoSnapshots | Unreadable(decode: DecodeError)
    | BadMappings(mapping: MappingError) | BadSources(route: RouteError)
    | MissingConfiguration | ConflictingConfiguration | TargetNotEmpty | InsertRejected | WrongCount

  const CONFIG: Bytes := [95, 99, 111, 110, 102, 105, 103]  // _config, also the key of its row
  const META: Bytes := [95, 109, 101, 116, 97]              // _meta

  lemma SpellTables()
    ensures CONFIG == Ascii("_config") && META == Ascii("_meta")
  {
  }

  /* ensureEntry. */

  // The row of a configuration table after ensureEntry. `same` says that two channel
  // configurations differ at most in signatures and encoding.
  function EnsuredRow(existing: Option<Row>, value: Bytes, config: bool,
                      same: (Bytes, Bytes) -> bool): Result<Row, ImportError>
  {
    if value == [] then Err(MissingConfiguration)
    else
      var row := if existing.Some? then existing.value else Row(value, 0);
      if row.version != 0 then Err(ConflictingConfiguration)
      else if row.value == value || (config && same(row.value, value)) then Ok(Row(value, 0))
      else Err(ConflictingConfiguration)
  }

  // A value is stored when there is one and the key is new, or holds it at version 0 already, or
  // holds an equivalent channel configuration at version 0. Everything else is a conflict.
  lemma EnsuredRowExact(existing: Option<Row>, value: Bytes, config: bool, same: (Bytes, Bytes) -> bool)
    ensures EnsuredRow(existing, value, config, same)
            == if value == [] then Err(MissingConfiguration)
               else if existing.None? || existing == Some(Row(value, 0)) then Ok(Row(value, 0))
               else if config && existing.value.version == 0 && same(existing.value.value, value) then Ok(Row(value, 0))
               else Err(ConflictingConfiguration)
  {
  }

  function Lookup(table: Table, key: Bytes): Option<Row> {
    if key in table then Some(table[key]) else None
  }

  method EnsureEntry(tx: Transaction, namespace: Bytes, key: Bytes, value: Bytes, same: (Bytes, Bytes) -> bool)
    returns (err: Option<ImportError>)
    requires namespace in tx.tables
    modifies tx
    ensures match EnsuredRow(Lookup(old(tx.tables)[namespace], key), value, namespace == CONFIG, same)
            case Ok(row) => err.None? && tx.tables == old(tx.tables)[namespace := old(tx.tables)[namespace][key := row]]
            case Err(e) => err == Some(e)
    ensures var table := old(tx.tables)[namespace];
            err.None? <==>
              value != [] && (key in table ==>
                                && table[key].version == 0
                                && (table[key].value == value
                                    || (namespace == CONFIG && same(table[key].value, value))))
  {
    if value == [] { return Some(MissingConfiguration); }
    var table := tx.tables[namespace];
    if key !in table {
      table := table[key := Row(value, 0)];
      tx.tables := tx.tables[namespace := table];
    }
    var row := table[key];
    if row.version != 0 { return Some(ConflictingConfiguration); }
    if row.value == value {
      assert table[key := row] == table;
      assert tx.tables[namespace := table] == tx.tables;
      return None;
    }
    if namespace == CONFIG && same(row.value, value) {
      tx.tables := tx.tables[namespace := table[key := Row(value, 0)]];
      return None;
    }
    return Some(ConflictingConfiguration);
  }

  /* Preparation: system tables, the configuration row, and an empty table for every target. */

  // CREATE TABLE IF NOT EXISTS
  function WithTable(tables: Tables, namespace: Bytes): Tables {
    if namespace in tables then tables else tables[namespace := map[]]
  }

  function PrepareSystem(tables: Tables, envelope: Bytes,
                         same: (Bytes, Bytes) -> bool): (r: Result<Tables, ImportError>)
    ensures r.Ok? ==> META in r.value
  {
    var created := WithTable(WithTable(tables, META), CONFIG);
    var row :- EnsuredRow(Lookup(created[CONFIG], CONFIG), envelope, true, same);
    Ok(created[CONFIG := created[CONFIG][CONFIG := row]])
  }

  function PolicyOf(policies: map<Bytes, Bytes>, target: Bytes): Bytes {
    if target in policies then policies[target] else []
  }

  function PrepareTarget(tables: Tables, target: Bytes, policy: Bytes,
                         same: (Bytes, Bytes) -> bool): (r: Result<Tables, ImportError>)
    requires META in tables
    ensures r.Ok? ==> META in r.value
  {
    var created := WithTable(tables, target);
    if created[target] != map[] then Err(TargetNotEmpty)
    else
      var row :- EnsuredRow(Lookup(created[META], target), policy, false, same);
      Ok(created[META := created[META][target := row]])
  }

  function PrepareTargets(tables: Tables, targets: seq<Bytes>, policies: map<Bytes, Bytes>,
                          same: (Bytes, Bytes) -> bool)
    : Result<Tables, ImportError>
    requires META in tables
    decreases targets
  {
    if targets == [] then Ok(tables)
    else
      var first :- PrepareTarget(tables, targets[0], PolicyOf(policies, targets[0]), same);
      PrepareTargets(first, targets[1..], policies, same)
  }

  function PrepareAll(tables: Tables, targets: seq<Bytes>, policies: map<Bytes, Bytes>, envelope: Bytes,
                      same: (Bytes, Bytes) -> bool): Result<Tables, ImportError>
  {
    var system :- PrepareSystem(tables, envelope, same);
    PrepareTargets(system, targets, policies, same)
  }

  method Prepare(tx: Transaction, targets: seq<Bytes>, policies: map<Bytes, Bytes>, envelope: Bytes,
                 same: (Bytes, Bytes) -> bool)
    returns (err: Option<ImportError>)
    requires META !in targets && CONFIG !in targets
    modifies tx
    ensures match PrepareAll(old(tx.tables), targets, policies, envelope, same)
            case Ok(tables) => err.None? && tx.tables == tables
            case Err(e) => err == Some(e)
  {
    tx.tables := WithTable(WithTable(tx.tables, META), CONFIG);
    err := EnsureEntry(tx, CONFIG, CONFIG, envelope, same);
    if err.Some? { return; }
    ghost var start := tx.tables;
    assert targets[0..] == targets;
    for i := 0 to |targets|
      invariant META in tx.tables
      invariant PrepareTargets(start, targets, policies, same)
                == PrepareTargets(tx.tables, targets[i..], policies, same)
    {
      assert targets[i..][0] == targets[i] && targets[i..][1..] == targets[i + 1..];
      assert targets[i] in targets;
      tx.tables := WithTable(tx.tables, targets[i]);
      if tx.tables[targets[i]] != map[] { return Some(TargetNotEmpty); }
      err := EnsureEntry(tx, META, targets[i], PolicyOf(policies, targets[i]), same);
      if err.Some? { return; }
    }
    err := None;
  }

  // The tables that preparation leaves: every target is there and empty, its policy is stored,
  // and no other application table is touched.
  ghost predicate Prepared(before: Tables, after: Tables, targets: set<Bytes>, policies: map<Bytes, Bytes>)
    requires META in before && META in after
  {
    && after.Keys == before.Keys + targets
    && (forall t | t in targets :: t in after && after[t] == map[])
    && (forall n | n in before && n !in targets && n != META :: after[n] == before[n])
    && (forall t | t in targets :: t in after[META] && after[META][t] == Row(PolicyOf(policies, t), 0))
    && (forall k | k !in targets :: Lookup(after[META], k) == Lookup(before[META], k))
  }

  lemma PreparedNone(tables: Tables, policies: map<Bytes, Bytes>)
    requires META in tables
    ensures Prepared(tables, tables, {}, policies)
  {
  }

  lemma PreparedOne(tables: Tables, target: Bytes, policies: map<Bytes, Bytes>, same: (Bytes, Bytes) -> bool)
    requires META in tables && target != META
    ensures match PrepareTarget(tables, target, PolicyOf(policies, target), same)
            case Ok(after) => META in after && Prepared(tables, after, {target}, policies)
                              && (target in tables ==> tables[target] == map[])
            case Err(e) => e == TargetNotEmpty <==> target in tables && tables[target] != map[]
  {
  }

  lemma PreparedBoth(a: Tables, b: Tables, c: Tables, first: set<Bytes>, second: set<Bytes>,
                     policies: map<Bytes, Bytes>)
    requires META in a && META in b && META in c && META !in first + second && first !! second
    requires Prepared(a, b, first, policies) && Prepared(b, c, second, policies)
    ensures Prepared(a, c, first + second, policies)
  {
    forall k | k !in first + second ensures Lookup(c[META], k) == Lookup(a[META], k) {
      assert Lookup(c[META], k) == Lookup(b[META], k);
    }
    forall t | t in first + second ensures t in c[META] && c[META][t] == Row(PolicyOf(policies, t), 0) {
      if t in first { assert Lookup(c[META], t) == Lookup(b[META], t); }
    }
  }

  // A target that holds rows stops the preparation.
  lemma {:induction false} PrepareTargetsMeaning(tables: Tables, targets: seq<Bytes>, policies: map<Bytes, Bytes>,
                                                 same: (Bytes, Bytes) -> bool)
    requires META in tables && META !in targets && NoDuplicates(targets)
    ensures PrepareTargets(tables, targets, policies, same).Ok? ==>
              && META in PrepareTargets(tables, targets, policies, same).value
              && Prepared(tables, PrepareTargets(tables, targets, policies, same).value, Elements(targets), policies)
              && forall t | t in targets && t in tables :: tables[t] == map[]
    ensures PrepareTargets(tables, targets, policies, same) == Err(TargetNotEmpty) ==>
              exists t :: t in targets && t in tables && tables[t] != map[]
    decreases targets
  {
    hide PrepareTarget, Prepared;
    if targets == [] {
      assert Elements(targets) == {};
      PreparedNone(tables, policies);
    } else {
      var t, rest := targets[0], targets[1..];
      assert targets == [t] + rest && t !in rest;
      assert Elements(targets) == {t} + Elements(rest);
      PreparedOne(tables, t, policies, same);
      var first := PrepareTarget(tables, t, PolicyOf(policies, t), same);
      if first.Ok? {
        PrepareTargetsMeaning(first.value, rest, policies, same);
        PreparedKeeps(tables, first.value, t, policies);
        var last := PrepareTargets(first.value, rest, policies, same);
        if last.Ok? { PreparedBoth(tables, first.value, last.value, {t}, Elements(rest), policies); }
      }
    }
  }

  /* When preparation succeeds, said of the tables it starts from. */

  function TableOf(tables: Tables, namespace: Bytes): Table {
    if namespace in tables then tables[namespace] else map[]
  }

  // Why a target cannot be prepared: it holds rows, it has no policy, or the stored policy or its
  // version is another one.
  function TargetRefusal(tables: Tables, target: Bytes, policies: map<Bytes, Bytes>): Option<ImportError> {
    if target in tables && tables[target] != map[] then Some(TargetNotEmpty)
    else if target !in policies || policies[target] == [] then Some(MissingConfiguration)
    else if META in tables && target in tables[META] && tables[META][target] != Row(policies[target], 0) then
      Some(ConflictingConfiguration)
    else None
  }

  // Why the configuration cannot be stored: there is none, or the stored one has another version or
  // is another configuration.
  function ConfigRefusal(tables: Tables, envelope: Bytes, same: (Bytes, Bytes) -> bool): Option<ImportError> {
    if envelope == [] then Some(MissingConfiguration)
    else if CONFIG !in tables || CONFIG !in tables[CONFIG] then None
    else
      var row := tables[CONFIG][CONFIG];
      if row.version != 0 || (row.value != envelope && !same(row.value, envelope)) then Some(ConflictingConfiguration)
      else None
  }

  predicate TargetReady(tables: Tables, target: Bytes, policies: map<Bytes, Bytes>) {
    TargetRefusal(tables, target, policies).None?
  }

  predicate ConfigReady(tables: Tables, envelope: Bytes, same: (Bytes, Bytes) -> bool) {
    ConfigRefusal(tables, envelope, same).None?
  }

  // Ready is: empty or absent, with a policy that is not stored yet or stored as it is.
  lemma ReadyExact(tables: Tables, target: Bytes, policies: map<Bytes, Bytes>, envelope: Bytes,
                   same: (Bytes, Bytes) -> bool)
    ensures TargetReady(tables, target, policies) <==>
            && (target in tables ==> tables[target] == map[])
            && target in policies && policies[target] != []
            && (META in tables && target in tables[META] ==> tables[META][target] == Row(policies[target], 0))
    ensures ConfigReady(tables, envelope, same) <==>
            && envelope != []
            && (CONFIG in tables && CONFIG in tables[CONFIG] ==>
                  && tables[CONFIG][CONFIG].version == 0
                  && (tables[CONFIG][CONFIG].value == envelope || same(tables[CONFIG][CONFIG].value, envelope)))
  {
  }

  // The first target that is refused decides.
  function FirstRefusal(tables: Tables, targets: seq<Bytes>, policies: map<Bytes, Bytes>): Option<ImportError> {
    if targets == [] then None
    else if TargetRefusal(tables, targets[0], policies).Some? then TargetRefusal(tables, targets[0], policies)
    else FirstRefusal(tables, targets[1..], policies)
  }

  function Refusal(tables: Tables, targets: seq<Bytes>, policies: map<Bytes, Bytes>, envelope: Bytes,
                   same: (Bytes, Bytes) -> bool): Option<ImportError>
  {
    if ConfigRefusal(tables, envelope, same).Some? then ConfigRefusal(tables, envelope, same)
    else FirstRefusal(tables, targets, policies)
  }

  lemma {:induction false} FirstRefusalExact(tables: Tables, targets: seq<Bytes>, policies: map<Bytes, Bytes>)
    ensures FirstRefusal(tables, targets, policies).None?
            <==> forall t | t in targets :: TargetReady(tables, t, policies)
    ensures FirstRefusal(tables, targets, policies).Some? ==>
              exists i :: 0 <= i < |targets| && (forall j | 0 <= j < i :: TargetReady(tables, targets[j], policies))
                          && TargetRefusal(tables, targets[i], policies) == FirstRefusal(tables, targets, policies)
  {
    hide TargetRefusal;
    if targets != [] {
      var rest := targets[1..];
      FirstRefusalExact(tables, rest, policies);
      assert forall t :: t in targets <==> t == targets[0] || t in rest;
      if TargetReady(tables, targets[0], policies) && FirstRefusal(tables, rest, policies).Some? {
        var i :| 0 <= i < |rest| && (forall j | 0 <= j < i :: TargetReady(tables, rest[j], policies))
                 && TargetRefusal(tables, rest[i], policies) == FirstRefusal(tables, rest, policies);
        assert forall j | 1 <= j < i + 1 :: targets[j] == rest[j - 1];
        assert targets[i + 1] == rest[i];
      } else if !TargetReady(tables, targets[0], policies) {
        assert TargetRefusal(tables, targets[0], policies) == FirstRefusal(tables, targets, policies);
      }
    }
  }

  lemma RefusalKept(before: Tables, after: Tables, first: Bytes, t: Bytes, policies: map<Bytes, Bytes>)
    requires META in before && META in after && Prepared(before, after, {first}, policies) && t != first && t != META
    ensures TargetRefusal(after, t, policies) == TargetRefusal(before, t, policies)
  {
    assert Lookup(after[META], t) == Lookup(before[META], t);
  }

  lemma {:induction false} RefusalsKept(before: Tables, after: Tables, first: Bytes, targets: seq<Bytes>,
                                        policies: map<Bytes, Bytes>)
    requires META in before && META in after && Prepared(before, after, {first}, policies)
    requires first !in targets && META !in targets
    ensures FirstRefusal(after, targets, policies) == FirstRefusal(before, targets, policies)
  {
    hide Prepared, TargetRefusal;
    if targets != [] {
      RefusalKept(before, after, first, targets[0], policies);
      RefusalsKept(before, after, first, targets[1..], policies);
    }
  }

  lemma {:induction false} PrepareTargetsReady(tables: Tables, targets: seq<Bytes>, policies: map<Bytes, Bytes>,
                                               same: (Bytes, Bytes) -> bool)
    requires META in tables && META !in targets && NoDuplicates(targets)
    ensures var r, refusal := PrepareTargets(tables, targets, policies, same), FirstRefusal(tables, targets, policies);
            (r.Ok? <==> refusal.None?) && (r.Err? ==> refusal == Some(r.error))
    decreases targets
  {
    hide PrepareTarget, Prepared, TargetRefusal;
    if targets != [] {
      var t, rest := targets[0], targets[1..];
      assert targets == [t] + rest && t !in rest;
      PrepareTargetReady(tables, t, policies, same);
      PreparedOne(tables, t, policies, same);
      var first := PrepareTarget(tables, t, PolicyOf(policies, t), same);
      if first.Ok? {
        PrepareTargetsReady(first.value, rest, policies, same);
        RefusalsKept(tables, first.value, t, rest, policies);
      }
    }
  }

  lemma PrepareTargetReady(tables: Tables, target: Bytes, policies: map<Bytes, Bytes>, same: (Bytes, Bytes) -> bool)
    requires META in tables && target != META
    ensures var r, refusal := PrepareTarget(tables, target, PolicyOf(policies, target), same),
                              TargetRefusal(tables, target, policies);
            (r.Ok? <==> refusal.None?) && (r.Err? ==> refusal == Some(r.error))
  {
    hide EnsuredRow;
    var created := WithTable(tables, target);
    EnsuredRowExact(Lookup(created[META], target), PolicyOf(policies, target), false, same);
  }

  lemma PrepareSystemReady(tables: Tables, envelope: Bytes, same: (Bytes, Bytes) -> bool)
    ensures var r, refusal := PrepareSystem(tables, envelope, same), ConfigRefusal(tables, envelope, same);
            (r.Ok? <==> refusal.None?) && (r.Err? ==> refusal == Some(r.error))
  {
    hide EnsuredRow;
    var created := WithTable(WithTable(tables, META), CONFIG);
    EnsuredRowExact(Lookup(created[CONFIG], CONFIG), envelope, true, same);
  }

  // Preparation succeeds exactly when the configuration and every target are ready beforehand, and
  // otherwise fails with the first refusal.
  lemma PrepareAllReady(tables: Tables, targets: seq<Bytes>, policies: map<Bytes, Bytes>, envelope: Bytes,
                        same: (Bytes, Bytes) -> bool)
    requires NoDuplicates(targets) && META !in targets && CONFIG !in targets
    ensures PrepareAll(tables, targets, policies, envelope, same).Ok?
            <==> ConfigReady(tables, envelope, same) && forall t | t in targets :: TargetReady(tables, t, policies)
    ensures PrepareAll(tables, targets, policies, envelope, same).Ok?
            <==> Refusal(tables, targets, policies, envelope, same).None?
    ensures PrepareAll(tables, targets, policies, envelope, same).Err? ==>
              Refusal(tables, targets, policies, envelope, same)
              == Some(PrepareAll(tables, targets, policies, envelope, same).error)
  {
    hide PrepareTargets, PrepareSystem, TargetRefusal, ConfigRefusal;
    PrepareSystemReady(tables, envelope, same);
    FirstRefusalExact(tables, targets, policies);
    var system := PrepareSystem(tables, envelope, same);
    if system.Ok? {
      PrepareTargetsReady(system.value, targets, policies, same);
      SystemRefusals(tables, targets, policies, envelope, same);
    }
  }

  lemma {:induction false} SystemRefusals(tables: Tables, targets: seq<Bytes>, policies: map<Bytes, Bytes>,
                                          envelope: Bytes, same: (Bytes, Bytes) -> bool)
    requires PrepareSystem(tables, envelope, same).Ok? && META !in targets && CONFIG !in targets
    ensures FirstRefusal(PrepareSystem(tables, envelope, same).value, targets, policies)
            == FirstRefusal(tables, targets, policies)
    decreases targets
  {
    hide EnsuredRow;
    if targets != [] {
      var after := PrepareSystem(tables, envelope, same).value;
      assert TableOf(after, META) == TableOf(tables, META);
      assert TargetRefusal(after, targets[0], policies) == TargetRefusal(tables, targets[0], policies);
      SystemRefusals(tables, targets[1..], policies, envelope, same);
    }
  }

  lemma PreparedKeeps(before: Tables, after: Tables, target: Bytes, policies: map<Bytes, Bytes>)
    requires META in before && META in after && Prepared(before, after, {target}, policies)
    ensures forall n | n != target && n != META ::
              (n in before <==> n in after) && (n in before ==> after[n] == before[n])
  {
  }

  /* The closing check. */

  function WrongVersions(table: Table): set<Bytes> {
    set k | k in table && table[k].version != 0
  }

  lemma NoWrongVersion(table: Table)
    ensures WrongVersions(table) == {} <==> forall k | k in table :: table[k].version == 0
  {
    forall k | k in table && table[k].version != 0 ensures WrongVersions(table) != {} {
      assert k in WrongVersions(table);
    }
  }

  // The rows of the given tables, as the 64-bit sum that the result reports.
  function RowTotal(tables: Tables, targets: seq<Bytes>): nat
    requires forall t | t in targets :: t in tables
  {
    if targets == [] then 0
    else (RowTotal(tables, targets[..|targets| - 1]) + |tables[targets[|targets| - 1]]|) % TWO_64
  }

  method CloseCheck(tables: Tables, targets: seq<Bytes>, counts: map<Bytes, nat>) returns (ok: bool, total: nat)
    requires forall t | t in targets :: t in tables && t in counts
    ensures ok <==> forall t | t in targets :: |tables[t]| == counts[t] && WrongVersions(tables[t]) == {}
    ensures ok <==> forall t | t in targets ::
              |tables[t]| == counts[t] && forall k | k in tables[t] :: tables[t][k].version == 0
    ensures ok ==> total == RowTotal(tables, targets)
  {
    hide WrongVersions;
    forall t | t in targets
      ensures WrongVersions(tables[t]) == {} <==> forall k | k in tables[t] :: tables[t][k].version == 0
    {
      NoWrongVersion(tables[t]);
    }
    total := 0;
    for i := 0 to |targets|
      invariant forall k | 0 <= k < i ::
                  |tables[targets[k]]| == counts[targets[k]] && WrongVersions(tables[targets[k]]) == {}
      invariant total == RowTotal(tables, targets[..i])
    {
      assert targets[i] in targets;
      var table := tables[targets[i]];
      if |table| != counts[targets[i]] || |WrongVersions(table)| != 0 { return false, total; }
      assert targets[..i + 1][..i] == targets[..i];
      total := (total + |table|) % TWO_64;
    }
    assert targets[..|targets|] == targets;
    ok := true;
  }

  /* Import. */

  class Store {
    var committed: Tables
  }

  // What readMappings and OpenStream guarantee about the inputs.
  predicate Checked(mappings: seq<Mapping>, snapshots: map<Bytes, SnapshotStream>) {
    && UniqueSources(mappings)
    && (forall m | m in mappings :: m.target !in {[], CONFIG, META} && m.HashTarget() !in {[], CONFIG, META})
    && (forall c | c in snapshots :: Opened(snapshots[c]))
  }

  // Each target was empty or absent and holds exactly the records routed to it, at version 0.
  ghost predicate HoldsRouted(before: Tables, after: Tables, targets: set<Bytes>, routed: seq<Routed>) {
    && (forall t | t in targets && t in before :: before[t] == map[])
    && (forall t | t in targets :: t in after && after[t] == RowsFor(routed, t) && |after[t]| == RoutedTo(routed, t))
  }

  // No table comes or goes besides the targets and the system tables, and no other one changes.
  ghost predicate Untouched(before: Tables, after: Tables, targets: set<Bytes>) {
    && after.Keys == before.Keys + targets + {CONFIG, META}
    && (forall n | n in before && n !in targets && n != CONFIG && n != META :: n in after && after[n] == before[n])
  }

  // The resolved configuration and the policy of every target are stored.
  ghost predicate Configured(after: Tables, targets: set<Bytes>, policies: map<Bytes, Bytes>, envelope: Bytes) {
    && CONFIG in after && CONFIG in after[CONFIG] && after[CONFIG][CONFIG] == Row(envelope, 0)
    && META in after && (forall t | t in targets :: t in after[META] && after[META][t] == Row(PolicyOf(policies, t), 0))
  }

  // The configuration tables keep every row that is not about this import.
  ghost predicate RowsKept(before: Tables, after: Tables, targets: set<Bytes>) {
    && (forall k | k !in targets :: Lookup(TableOf(after, META), k) == Lookup(TableOf(before, META), k))
    && (forall k | k != CONFIG :: Lookup(TableOf(after, CONFIG), k) == Lookup(TableOf(before, CONFIG), k))
  }

  // The committed tables after a successful import.
  ghost predicate Imported(before: Tables, after: Tables, targets: set<Bytes>, routed: seq<Routed>,
                           policies: map<Bytes, Bytes>, envelope: Bytes)
  {
    && HoldsRouted(before, after, targets, routed) && Untouched(before, after, targets)
    && Configured(after, targets, policies, envelope) && RowsKept(before, after, targets) && NoCollision(routed)
  }

  lemma SystemPrepared(tables: Tables, envelope: Bytes, same: (Bytes, Bytes) -> bool)
    requires PrepareSystem(tables, envelope, same).Ok?
    ensures var after := PrepareSystem(tables, envelope, same).value;
            && after.Keys == tables.Keys + {CONFIG, META}
            && CONFIG in after[CONFIG] && after[CONFIG][CONFIG] == Row(envelope, 0)
            && (forall n | n in tables && n != CONFIG && n != META :: after[n] == tables[n])
            && TableOf(after, META) == TableOf(tables, META)
            && (forall k | k != CONFIG :: Lookup(TableOf(after, CONFIG), k) == Lookup(TableOf(tables, CONFIG), k))
  {
  }

  lemma {:induction false} RoutedSome(routed: seq<Routed>, i: nat)
    requires i < |routed|
    ensures RoutedTo(routed, routed[i].target) > 0
  {
    if i > 0 { RoutedSome(routed[1..], i - 1); }
  }

  lemma {:induction false} AnnouncedSome(namespaces: seq<Namespace>, m: Mapping, hashes: bool)
    requires Announced(namespaces, Selects(m, hashes)) > 0
    ensures HasSelected(namespaces, m, hashes)
  {
    if Selects(m, hashes)(namespaces[0].name) {
    } else {
      AnnouncedSome(namespaces[1..], m, hashes);
      var i :| 0 <= i < |namespaces[1..]| && Selects(m, hashes)(namespaces[1..][i].name);
      assert Selects(m, hashes)(namespaces[i + 1].name);
    }
  }

  // A target with records has an entry in the counts, hence a table.
  lemma {:induction false} TotalTargeted(mappings: seq<Mapping>, snapshots: map<Bytes, SnapshotStream>, target: Bytes)
    requires AllChannels(mappings, snapshots) && Total(mappings, snapshots, target) > 0
    ensures Targeted(mappings, snapshots, target)
  {
    var m, s := mappings[0], snapshots[mappings[0].sourceChannel];
    if Part(m, s, false, target) > 0 {
      assert m in mappings && m.target == target;
    } else if Part(m, s, true, target) > 0 {
      AnnouncedSome(s.hashNamespaces, m, true);
      assert m in mappings && m.HashTarget() == target;
    } else {
      TotalTargeted(mappings[1..], snapshots, target);
    }
  }

  // Every routed record has an entry for its target, which is a real application namespace.
  lemma RoutedTargeted(mappings: seq<Mapping>, snapshots: map<Bytes, SnapshotStream>, channels: seq<Bytes>, i: nat)
    requires Checked(mappings, snapshots) && AllChannels(mappings, snapshots)
    requires HasChannels(snapshots, channels) && NoDuplicates(channels) && Elements(channels) == snapshots.Keys
    requires RouteAll(mappings, snapshots, channels).Ok? && i < |RouteAll(mappings, snapshots, channels).value|
    ensures Targeted(mappings, snapshots, RouteAll(mappings, snapshots, channels).value[i].target)
    ensures RouteAll(mappings, snapshots, channels).value[i].target !in {[], CONFIG, META}
  {
    var routed := RouteAll(mappings, snapshots, channels).value;
    RoutedSome(routed, i);
    Conservation(mappings, snapshots, channels, routed[i].target);
    TotalTargeted(mappings, snapshots, routed[i].target);
  }

  /* The run. */

  // The records that the walk over these inputs yields, with their targets.
  ghost predicate RoutedBy(mappings: seq<Mapping>, snapshots: map<Bytes, SnapshotStream>, routed: seq<Routed>) {
    exists channels :: && StrictlySorted(Itself, channels) && Elements(channels) == snapshots.Keys
                       && HasChannels(snapshots, channels) && RouteAll(mappings, snapshots, channels) == Ok(routed)
  }

  // There is such a list exactly when every walk ends well and no mapped record has key-level
  // metadata.
  lemma RoutedExists(mappings: seq<Mapping>, snapshots: map<Bytes, SnapshotStream>)
    requires forall c | c in snapshots :: Opened(snapshots[c])
    ensures (exists routed :: RoutedBy(mappings, snapshots, routed)) <==>
            && (forall c | c in snapshots :: WalksEnd(snapshots[c]))
            && forall y | Yielded(snapshots, y) :: !Refused(mappings, y)
  {
    hide Opened, RouteAll, WalksEnd, Refused, AllYields, Picks;
    var channels := KeyOrder(snapshots.Keys);
    forall c ensures c in channels <==> c in snapshots { assert c in channels <==> c in Elements(channels); }
    var picks := RouteAllExact(mappings, snapshots, channels);
    forall y ensures y in AllYields(snapshots, channels) <==> Yielded(snapshots, y) {
      AllYieldsMember(snapshots, channels, y);
      YieldedChannel(snapshots, y);
    }
    if RouteAll(mappings, snapshots, channels).Ok? {
      assert RoutedBy(mappings, snapshots, RouteAll(mappings, snapshots, channels).value);
    }
    forall routed | RoutedBy(mappings, snapshots, routed) ensures RouteAll(mappings, snapshots, channels).Ok? {
      OneWalk(mappings, snapshots, channels, routed);
    }
  }

  // After an import the targets hold the mapped records and nothing else.
  lemma ImportedHolds(before: Tables, after: Tables, counts: map<Bytes, nat>, routed: seq<Routed>,
                      policies: map<Bytes, Bytes>, envelope: Bytes, mappings: seq<Mapping>,
                      snapshots: map<Bytes, SnapshotStream>)
    requires Checked(mappings, snapshots) && RoutedBy(mappings, snapshots, routed) && Announces(counts, routed)
    requires Imported(before, after, counts.Keys, routed, policies, envelope)
    ensures HoldsRecords(after, counts.Keys, mappings, snapshots)
  {
    hide Opened, UniqueSources, RouteAll, NoCollision, RowsFor, RoutedTo, HoldsRecords, Untouched, Configured, RowsKept;
    var channels :| StrictlySorted(Itself, channels) && Elements(channels) == snapshots.Keys
                    && HasChannels(snapshots, channels) && RouteAll(mappings, snapshots, channels) == Ok(routed);
    RoutedHeld(after, counts.Keys, mappings, snapshots, channels);
  }

  // Every routed record goes to a counted target, and the counts are the totals.
  ghost predicate Announces(counts: map<Bytes, nat>, routed: seq<Routed>) {
    && (forall i | 0 <= i < |routed| :: routed[i].target in counts)
    && (forall t | t in counts :: t !in {[], CONFIG, META} && counts[t] == RoutedTo(routed, t) % TWO_64)
  }

  lemma CountsAnnounce(mappings: seq<Mapping>, snapshots: map<Bytes, SnapshotStream>, counts: map<Bytes, nat>,
                       routed: seq<Routed>)
    requires Checked(mappings, snapshots) && AllChannels(mappings, snapshots) && RoutedBy(mappings, snapshots, routed)
    requires forall t :: Count(counts, t) == Total(mappings, snapshots, t) % TWO_64
    requires forall t :: t in counts <==> Targeted(mappings, snapshots, t)
    ensures Announces(counts, routed)
    ensures forall t :: RoutedTo(routed, t) == Total(mappings, snapshots, t)
  {
    hide RouteAll, Total, Opened, UniqueSources;
    var channels :| StrictlySorted(Itself, channels) && Elements(channels) == snapshots.Keys
                    && HasChannels(snapshots, channels) && RouteAll(mappings, snapshots, channels) == Ok(routed);
    StrictIsSorted(channels);
    forall t ensures RoutedTo(routed, t) == Total(mappings, snapshots, t) {
      Conservation(mappings, snapshots, channels, t);
    }
    forall i | 0 <= i < |routed| ensures routed[i].target in counts {
      RoutedTargeted(mappings, snapshots, channels, i);
    }
    forall t | t in counts ensures t !in {[], CONFIG, META} && counts[t] == RoutedTo(routed, t) % TWO_64 {
      assert Count(counts, t) == counts[t];
    }
  }

  lemma FilledTarget(prepared: Tables, after: Tables, routed: seq<Routed>, t: Bytes)
    requires Inserted(prepared, routed, after) && NoCollision(routed) && t in prepared && prepared[t] == map[]
    ensures t in after && after[t] == RowsFor(routed, t) && |after[t]| == RoutedTo(routed, t)
  {
    hide NoCollision;
    RowsForSize(routed, t);
    assert map[] + RowsFor(routed, t) == RowsFor(routed, t);
  }

  lemma NotFilled(prepared: Tables, after: Tables, routed: seq<Routed>, n: Bytes)
    requires Inserted(prepared, routed, after) && n in prepared
    requires forall i | 0 <= i < |routed| :: routed[i].target != n
    ensures n in after && after[n] == prepared[n]
  {
    RowsForKeys(routed, n);
    assert RowsFor(routed, n) == map[];
  }

  // With empty targets the insertions are refused exactly when two records collide.
  lemma InsertIntoPrepared(prepared: Tables, routed: seq<Routed>, targets: set<Bytes>)
    requires forall t | t in targets :: t in prepared && prepared[t] == map[]
    requires forall i | 0 <= i < |routed| :: routed[i].target in targets
    ensures InsertAll(prepared, routed).Some? <==> NoCollision(routed)
    ensures InsertAll(prepared, routed).Some? ==> Filled(prepared, InsertAll(prepared, routed).value, targets, routed)
  {
    hide NoCollision, RowsFor, RoutedTo, InsertAll, Inserted;
    InsertAllMeaning(prepared, routed);
    if InsertAll(prepared, routed).Some? {
      var after := InsertAll(prepared, routed).value;
      forall t | t in targets
        ensures t in after && after[t] == RowsFor(routed, t) && |after[t]| == RoutedTo(routed, t)
      {
        FilledTarget(prepared, after, routed, t);
      }
      forall n | n in prepared && n !in targets ensures n in after && after[n] == prepared[n] {
        NotFilled(prepared, after, routed, n);
      }
      assert after.Keys == prepared.Keys by { InsertedKeys(prepared, routed, after); }
    }
  }

  lemma InsertedKeys(prepared: Tables, routed: seq<Routed>, after: Tables)
    requires Inserted(prepared, routed, after)
    ensures after.Keys == prepared.Keys
  {
  }

  // The targets hold the routed rows; every other table is as it was.
  ghost predicate Filled(before: Tables, after: Tables, targets: set<Bytes>, routed: seq<Routed>) {
    && after.Keys == before.Keys
    && (forall t | t in targets :: t in after && after[t] == RowsFor(routed, t) && |after[t]| == RoutedTo(routed, t))
    && (forall n | n in before && n !in targets :: after[n] == before[n])
  }

  lemma AllZero(routed: seq<Routed>, target: Bytes)
    ensures WrongVersions(RowsFor(routed, target)) == {}
  {
    if routed != [] { AllZero(routed[1..], target); }
  }

  lemma FilledIsImported(before: Tables, system: Tables, prepared: Tables, after: Tables, targets: set<Bytes>,
                         routed: seq<Routed>, policies: map<Bytes, Bytes>, envelope: Bytes,
                         same: (Bytes, Bytes) -> bool)
    requires PrepareSystem(before, envelope, same) == Ok(system) && META in prepared
    requires CONFIG !in targets && META !in targets
    requires Prepared(system, prepared, targets, policies)
             && (forall t | t in targets && t in system :: system[t] == map[])
    requires Filled(prepared, after, targets, routed) && NoCollision(routed)
    ensures Imported(before, after, targets, routed, policies, envelope)
  {
    hide RowsFor, RoutedTo, NoCollision, PrepareSystem, Filled, Prepared;
    SystemPrepared(before, envelope, same);
    HoldsAfter(before, system, prepared, after, targets, routed, policies);
    UntouchedAfter(before, system, prepared, after, targets, routed, policies);
    ConfiguredAfter(system, prepared, after, targets, routed, policies, envelope);
    RowsKeptAfter(before, system, prepared, after, targets, routed, policies);
  }

  // The three parts of the result, from what preparation and insertion did.
  lemma HoldsAfter(before: Tables, system: Tables, prepared: Tables, after: Tables, targets: set<Bytes>,
                   routed: seq<Routed>, policies: map<Bytes, Bytes>)
    requires (forall n | n in before && n != CONFIG && n != META :: n in system && system[n] == before[n])
    requires CONFIG !in targets && META !in targets
    requires forall t | t in targets && t in system :: system[t] == map[]
    requires Filled(prepared, after, targets, routed)
    ensures HoldsRouted(before, after, targets, routed)
  {
  }

  ghost predicate SameOutside(before: Tables, after: Tables, touched: set<Bytes>) {
    forall n | n in before && n !in touched :: n in after && after[n] == before[n]
  }

  lemma PreparedOutside(before: Tables, after: Tables, targets: set<Bytes>, policies: map<Bytes, Bytes>)
    requires META in before && META in after && Prepared(before, after, targets, policies)
    ensures after.Keys == before.Keys + targets && SameOutside(before, after, targets + {META})
  {
  }

  lemma FilledOutside(before: Tables, after: Tables, targets: set<Bytes>, routed: seq<Routed>)
    requires Filled(before, after, targets, routed)
    ensures after.Keys == before.Keys && SameOutside(before, after, targets)
  {
  }

  lemma UntouchedAfter(before: Tables, system: Tables, prepared: Tables, after: Tables, targets: set<Bytes>,
                       routed: seq<Routed>, policies: map<Bytes, Bytes>)
    requires system.Keys == before.Keys + {CONFIG, META} && META in system && META in prepared
    requires SameOutside(before, system, {CONFIG, META})
    requires Prepared(system, prepared, targets, policies) && Filled(prepared, after, targets, routed)
    ensures Untouched(before, after, targets)
  {
    hide Prepared, Filled;
    PreparedOutside(system, prepared, targets, policies);
    FilledOutside(prepared, after, targets, routed);
  }

  lemma RowsKeptAfter(before: Tables, system: Tables, prepared: Tables, after: Tables, targets: set<Bytes>,
                      routed: seq<Routed>, policies: map<Bytes, Bytes>)
    requires META in system && CONFIG in system && META in prepared && CONFIG !in targets && META !in targets
    requires TableOf(system, META) == TableOf(before, META)
    requires forall k | k != CONFIG :: Lookup(TableOf(system, CONFIG), k) == Lookup(TableOf(before, CONFIG), k)
    requires Prepared(system, prepared, targets, policies) && Filled(prepared, after, targets, routed)
    ensures RowsKept(before, after, targets)
  {
    hide RowsFor, RoutedTo;
    assert after[META] == prepared[META] && after[CONFIG] == prepared[CONFIG] == system[CONFIG];
  }

  lemma ConfiguredAfter(system: Tables, prepared: Tables, after: Tables, targets: set<Bytes>, routed: seq<Routed>,
                        policies: map<Bytes, Bytes>, envelope: Bytes)
    requires META in system && META in prepared && META !in targets && CONFIG !in targets
    requires CONFIG in system && CONFIG in system[CONFIG] && system[CONFIG][CONFIG] == Row(envelope, 0)
    requires Prepared(system, prepared, targets, policies) && Filled(prepared, after, targets, routed)
    ensures Configured(after, targets, policies, envelope)
  {
    hide RowsFor, RoutedTo;
    assert CONFIG != META;
  }

  // The transaction up to its commit. Each refusal has its one cause.
  method InsideTransaction(committed: Tables, counts: map<Bytes, nat>, routed: seq<Routed>, policies: map<Bytes, Bytes>,
                           envelope: Bytes, same: (Bytes, Bytes) -> bool)
    returns (err: Option<ImportError>, tables: Tables, records: nat)
    requires Announces(counts, routed)
    ensures err.None? ==> Imported(committed, tables, counts.Keys, routed, policies, envelope)
                          && (forall t | t in counts :: counts[t] == |tables[t]|)
                          && records == |routed| % TWO_64
    ensures err.None? <==>
              && ConfigReady(committed, envelope, same)
              && (forall t | t in counts :: TargetReady(committed, t, policies))
              && NoCollision(routed) && Countable64(routed)
    ensures var refusal := Refusal(committed, KeyOrder(counts.Keys), policies, envelope, same);
            if refusal.Some? then err == refusal else err in {None, Some(InsertRejected), Some(WrongCount)}
    ensures err == Some(InsertRejected) ==> !NoCollision(routed)
    ensures err == Some(WrongCount) ==> !Countable64(routed)
    ensures err == Some(TargetNotEmpty) ==> exists t :: t in counts && t in committed && committed[t] != map[]
  {
    hide InsertAll, PrepareSystem, PrepareTarget, PrepareTargets, RowsFor, RoutedTo, NoCollision, Prepared,
         EnsuredRow, WrongVersions, TargetReady, ConfigReady, Countable64, RowTotal, RoutedToAny, Imported,
         ConfigRefusal, FirstRefusal, StrictlySorted;
    tables, records := committed, 0;
    var tx := new Transaction(committed);
    var targets := SortedKeys(counts.Keys);
    TargetsOf(counts, targets);
    err := Prepare(tx, targets, policies, envelope, same);
    PreparedOutcome(committed, targets, policies, envelope, same);
    PrepareAllReady(committed, targets, policies, envelope, same);
    if err.Some? { return; }
    ghost var system, prepared := PrepareSystem(committed, envelope, same).value, tx.tables;
    PreparedEmpty(system, prepared, counts.Keys, policies);
    InsertIntoPrepared(prepared, routed, counts.Keys);
    assert RealTargets(routed);
    var ok := InsertRouted(tx, routed);
    if !ok { return Some(InsertRejected), tables, 0; }
    ok, records := CloseCheck(tx.tables, targets, counts);
    RowTotalRouted(tx.tables, targets, routed);
    AllRouted(routed, targets);
    CloseCheckOutcome(tx.tables, targets, counts, routed);
    if !ok { return Some(WrongCount), tables, 0; }
    FilledIsImported(committed, system, prepared, tx.tables, counts.Keys, routed, policies, envelope, same);
    tables := tx.tables;
  }

  lemma TargetsOf(counts: map<Bytes, nat>, targets: seq<Bytes>)
    requires StrictlySorted(Itself, targets) && Elements(targets) == counts.Keys
    ensures NoDuplicates(targets) && forall t :: t in targets <==> t in counts
  {
    StrictIsSorted(targets);
    forall t ensures t in targets <==> t in counts { assert t in targets <==> t in Elements(targets); }
  }

  lemma PreparedEmpty(system: Tables, prepared: Tables, targets: set<Bytes>, policies: map<Bytes, Bytes>)
    requires META in system && META in prepared && Prepared(system, prepared, targets, policies)
    ensures forall t | t in targets :: t in prepared && prepared[t] == map[]
  {
  }

  // How preparation ends.
  lemma PreparedOutcome(committed: Tables, targets: seq<Bytes>, policies: map<Bytes, Bytes>, envelope: Bytes,
                        same: (Bytes, Bytes) -> bool)
    requires NoDuplicates(targets) && META !in targets && CONFIG !in targets
    ensures var r := PrepareAll(committed, targets, policies, envelope, same);
            if r.Ok? then
              && PrepareSystem(committed, envelope, same).Ok? && META in r.value
              && Prepared(PrepareSystem(committed, envelope, same).value, r.value, Elements(targets), policies)
              && forall t | t in targets && t in PrepareSystem(committed, envelope, same).value ::
                   PrepareSystem(committed, envelope, same).value[t] == map[]
            else
              && r.error in {MissingConfiguration, ConflictingConfiguration, TargetNotEmpty}
              && (r.error == TargetNotEmpty ==> exists t :: t in targets && t in committed && committed[t] != map[])
  {
    hide Prepared, PrepareTargets;
    var system := PrepareSystem(committed, envelope, same);
    if system.Ok? {
      SystemPrepared(committed, envelope, same);
      PrepareTargetsMeaning(system.value, targets, policies, same);
      PrepareTargetsErrors(system.value, targets, policies, same);
    }
  }

  lemma {:induction false} PrepareTargetsErrors(tables: Tables, targets: seq<Bytes>, policies: map<Bytes, Bytes>,
                                                same: (Bytes, Bytes) -> bool)
    requires META in tables
    ensures var r := PrepareTargets(tables, targets, policies, same);
            r.Err? ==> r.error in {MissingConfiguration, ConflictingConfiguration, TargetNotEmpty}
    decreases targets
  {
    if targets != [] {
      var first := PrepareTarget(tables, targets[0], PolicyOf(policies, targets[0]), same);
      if first.Ok? { PrepareTargetsErrors(first.value, targets[1..], policies, same); }
    }
  }

  // No target is sent 2^64 records or more.
  ghost predicate Countable64(routed: seq<Routed>) {
    forall t :: RoutedTo(routed, t) < TWO_64
  }

  lemma {:induction false} RoutedNone(routed: seq<Routed>, target: Bytes)
    requires forall i | 0 <= i < |routed| :: routed[i].target != target
    ensures RoutedTo(routed, target) == 0
  {
    if routed != [] { RoutedNone(routed[1..], target); }
  }

  // The closing check finds what was routed, so it fails exactly when a total passes 64 bits.
  lemma CloseCheckOutcome(tables: Tables, targets: seq<Bytes>, counts: map<Bytes, nat>, routed: seq<Routed>)
    requires Announces(counts, routed) && (forall t :: t in targets <==> t in counts)
             && forall t | t in targets :: t in tables
    requires forall t | t in targets :: tables[t] == RowsFor(routed, t) && |tables[t]| == RoutedTo(routed, t)
    ensures (forall t | t in targets :: |tables[t]| == counts[t] && WrongVersions(tables[t]) == {})
            <==> Countable64(routed)
  {
    hide RowsFor, RoutedTo, WrongVersions;
    forall t
      ensures t in targets ==>
                WrongVersions(tables[t]) == {} && (|tables[t]| == counts[t] <==> RoutedTo(routed, t) < TWO_64)
      ensures t !in targets ==> RoutedTo(routed, t) < TWO_64
    {
      AllZero(routed, t);
      if t !in targets { RoutedNone(routed, t); }
    }
  }

  // Everything an import needs: every mapping can be counted, the walk over the sources ends well,
  // the target is ready, no two routed records collide, and no total passes 64 bits.
  ghost predicate Importable(tables: Tables, mappings: seq<Mapping>, snapshots: map<Bytes, SnapshotStream>,
                             routed: seq<Routed>,
                             policies: map<Bytes, Bytes>, envelope: Bytes, same: (Bytes, Bytes) -> bool)
  {
    && (forall m | m in mappings :: Countable(m, snapshots)) && RoutedBy(mappings, snapshots, routed)
    && ConfigReady(tables, envelope, same)
    && (forall t | Targeted(mappings, snapshots, t) :: TargetReady(tables, t, policies))
    && NoCollision(routed) && Countable64(routed)
  }

  // The walk over given inputs has one outcome.
  lemma OneWalk(mappings: seq<Mapping>, snapshots: map<Bytes, SnapshotStream>, channels: seq<Bytes>,
                routed: seq<Routed>)
    requires StrictlySorted(Itself, channels) && Elements(channels) == snapshots.Keys
             && HasChannels(snapshots, channels)
    requires RoutedBy(mappings, snapshots, routed)
    ensures RouteAll(mappings, snapshots, channels) == Ok(routed)
  {
    hide RouteAll;
    var others :| StrictlySorted(Itself, others) && Elements(others) == snapshots.Keys
                  && HasChannels(snapshots, others) && RouteAll(mappings, snapshots, others) == Ok(routed);
    StrictlySortedSame(channels, others);
  }

  /* The reported record count. */

  function Occurs(targets: seq<Bytes>, target: Bytes): nat {
    if targets == [] then 0
    else Occurs(targets[..|targets| - 1], target) + if targets[|targets| - 1] == target then 1 else 0
  }

  lemma {:induction false} OccursOnce(targets: seq<Bytes>, target: Bytes)
    requires NoDuplicates(targets)
    ensures Occurs(targets, target) == if target in targets then 1 else 0
  {
    if targets != [] {
      var before := targets[..|targets| - 1];
      assert targets == before + [targets[|targets| - 1]];
      OccursOnce(before, target);
    }
  }

  // How many of the routed records go to one of the targets.
  function RoutedToAny(routed: seq<Routed>, targets: seq<Bytes>): nat {
    if targets == [] then 0
    else RoutedToAny(routed, targets[..|targets| - 1]) + RoutedTo(routed, targets[|targets| - 1])
  }

  lemma {:induction false} RoutedToAnyHead(routed: seq<Routed>, targets: seq<Bytes>)
    requires routed != []
    ensures RoutedToAny(routed, targets) == Occurs(targets, routed[0].target) + RoutedToAny(routed[1..], targets)
  {
    if targets != [] { RoutedToAnyHead(routed, targets[..|targets| - 1]); }
  }

  lemma {:induction false} RoutedToAnyNone(targets: seq<Bytes>)
    ensures RoutedToAny([], targets) == 0
  {
    if targets != [] { RoutedToAnyNone(targets[..|targets| - 1]); }
  }

  lemma {:induction false} AllRouted(routed: seq<Routed>, targets: seq<Bytes>)
    requires NoDuplicates(targets) && forall i | 0 <= i < |routed| :: routed[i].target in targets
    ensures RoutedToAny(routed, targets) == |routed|
  {
    if routed == [] {
      RoutedToAnyNone(targets);
    } else {
      RoutedToAnyHead(routed, targets);
      OccursOnce(targets, routed[0].target);
      AllRouted(routed[1..], targets);
    }
  }

  lemma {:induction false} RowTotalRouted(tables: Tables, targets: seq<Bytes>, routed: seq<Routed>)
    requires forall t | t in targets :: t in tables && |tables[t]| == RoutedTo(routed, t)
    ensures RowTotal(tables, targets) == RoutedToAny(routed, targets) % TWO_64
    decreases targets
  {
    if targets != [] {
      var before := targets[..|targets| - 1];
      assert targets == before + [targets[|targets| - 1]];
      RowTotalRouted(tables, before, routed);
      ModAdd(RoutedToAny(routed, before), RoutedTo(routed, targets[|targets| - 1]));
    }
  }

  // The result of an import: the rows of each target and of all of them.
  datatype Summary = Summary(counts: map<Bytes, nat>, records: nat)

  // An import succeeds exactly when everything it needs is there. One that fails, at whatever
  // step, leaves the committed tables as they were. One that succeeds leaves exactly the routed
  // records in its targets, all at version 0, and no other application table changed.
  method Run(store: Store, mappings: seq<Mapping>, snapshots: map<Bytes, SnapshotStream>, policies: map<Bytes, Bytes>,
             envelope: Bytes, same: (Bytes, Bytes) -> bool)
    returns (r: Result<Summary, ImportError>, routed: seq<Routed>)
    requires Checked(mappings, snapshots)
    modifies store
    ensures r.Err? ==> store.committed == old(store.committed)
    ensures r.Ok? ==> RoutedBy(mappings, snapshots, routed)
                      && Imported(old(store.committed), store.committed, r.value.counts.Keys, routed, policies,
                                  envelope)
                      && (forall t | t in r.value.counts :: r.value.counts[t] == |store.committed[t]|)
                      && r.value.records == |routed| % TWO_64
                      && HoldsRecords(store.committed, r.value.counts.Keys, mappings, snapshots)
                      && AllChannels(mappings, snapshots)
                      && forall t :: t in r.value.counts <==> Targeted(mappings, snapshots, t)
    ensures r.Ok? <==> exists all ::
              Importable(old(store.committed), mappings, snapshots, all, policies, envelope, same)
    ensures r == Err(InsertRejected) ==> RoutedBy(mappings, snapshots, routed) && !NoCollision(routed)
    ensures r == Err(WrongCount) ==> RoutedBy(mappings, snapshots, routed) && !Countable64(routed)
    ensures r == Err(TargetNotEmpty) ==>
              AllChannels(mappings, snapshots)
              && exists t ::
                   Targeted(mappings, snapshots, t) && t in old(store.committed) && old(store.committed)[t] != map[]
  {
    hide Total, RouteAll, InsertAll, PrepareSystem, PrepareTargets, RowsFor, RoutedTo, NoCollision, Opened,
         TargetReady, ConfigReady, Countable64, Imported, StrictlySorted, UniqueSources, HoldsRecords;
    routed := [];
    var counted := MappingCounts(mappings, snapshots);
    if counted.Err? { return Err(BadMappings(counted.error)), routed; }
    var counts := counted.value;
    var channels, walked := WalkSources(mappings, snapshots);
    forall all | RoutedBy(mappings, snapshots, all) ensures walked == Ok(all) {
      OneWalk(mappings, snapshots, channels, all);
    }
    if walked.Err? { return Err(BadSources(walked.error)), routed; }
    routed := walked.value;
    assert RoutedBy(mappings, snapshots, routed);
    CountsAnnounce(mappings, snapshots, counts, routed);
    var error, tables, records := InsideTransaction(store.committed, counts, routed, policies, envelope, same);
    if error.Some? { return Err(error.value), routed; }
    assert Importable(store.committed, mappings, snapshots, routed, policies, envelope, same);
    ImportedHolds(store.committed, tables, counts, routed, policies, envelope, mappings, snapshots);
    store.committed := tables;
    return Ok(Summary(counts, records)), routed;
  }

  /* From the mapping file and the snapshot files. */

  predicate AllReadable(files: map<Bytes, SnapshotFiles>) {
    forall c | c in files :: OpenStream(files[c]).Ok?
  }

  function OpenAll(files: map<Bytes, SnapshotFiles>): map<Bytes, SnapshotStream>
    requires AllReadable(files)
  {
    map c | c in files :: OpenStream(files[c]).value
  }

  // The loop over the channels, as far as it opens their snapshots.
  method OpenSnapshots(files: map<Bytes, SnapshotFiles>) returns (r: Result<map<Bytes, SnapshotStream>, DecodeError>)
    ensures r.Ok? <==> AllReadable(files)
    ensures r.Ok? ==> r.value == OpenAll(files)
  {
    hide OpenStream, OpenAll;
    var channels := SortedKeys(files.Keys);
    forall c | c in channels ensures c in files { assert c in Elements(channels); }
    var snapshots: map<Bytes, SnapshotStream> := map[];
    for i := 0 to |channels|
      invariant OpenedFirst(files, channels, i, snapshots)
    {
      assert channels[i] in channels;
      var stream := OpenStream(files[channels[i]]);
      if stream.Err? { return Err(stream.error); }
      snapshots := snapshots[channels[i] := stream.value];
    }
    OpenedEvery(files, channels, snapshots);
    return Ok(snapshots);
  }

  // The snapshots of the first `count` channels are open, and no others.
  ghost predicate OpenedFirst(files: map<Bytes, SnapshotFiles>, channels: seq<Bytes>, count: nat,
                              snapshots: map<Bytes, SnapshotStream>)
  {
    && (forall c | c in channels :: c in files) && count <= |channels|
    && (forall k | 0 <= k < count :: channels[k] in snapshots)
    && (forall c | c in snapshots :: c in files && OpenStream(files[c]) == Ok(snapshots[c]))
  }

  lemma OpenedEvery(files: map<Bytes, SnapshotFiles>, channels: seq<Bytes>, snapshots: map<Bytes, SnapshotStream>)
    requires OpenedFirst(files, channels, |channels|, snapshots) && Elements(channels) == files.Keys
    ensures AllReadable(files) && snapshots == OpenAll(files)
  {
    hide OpenStream;
    forall c | c in files ensures c in snapshots { assert c in Elements(channels); }
  }

  lemma OpenedAgain(files: SnapshotFiles)
    requires OpenStream(files).Ok?
    ensures Opened(OpenStream(files).value)
  {
    hide AllSplit;
  }

  // What readMappings and OpenStream return meets what the rest of the import relies on.
  lemma InputsChecked(allowed: Bytes -> bool, mappings: seq<Mapping>, sorted: seq<Mapping>,
                      files: map<Bytes, SnapshotFiles>)
    requires forall n | n in {[], CONFIG, META} :: !allowed(n)
    requires forall m | m in mappings :: ValidMapping(allowed, m)
    requires multiset(sorted) == multiset(mappings) && Ascending(sorted) && AllReadable(files)
    ensures Checked(sorted, OpenAll(files))
  {
    hide OpenStream, Opened, ValidSource, UniqueSources, Ascending;
    AscendingUnique(sorted);
    forall c | c in files ensures Opened(OpenAll(files)[c]) { OpenedAgain(files[c]); }
    forall m | m in sorted ensures m.target !in {[], CONFIG, META} && m.HashTarget() !in {[], CONFIG, META} {
      assert m in multiset(mappings);
      assert ValidMapping(allowed, m);
    }
  }

  // The import of a mapping file and snapshot files succeeds exactly when the mapping is usable,
  // every snapshot is readable, and everything Run needs is there.
  method ImportFiles(store: Store, allowed: Bytes -> bool, network: Bytes, mappings: seq<Mapping>,
                     files: map<Bytes, SnapshotFiles>, policies: map<Bytes, Bytes>, envelope: Bytes,
                     same: (Bytes, Bytes) -> bool)
    returns (r: Result<Summary, ImportError>, routed: seq<Routed>)
    requires forall n | n in {[], CONFIG, META} :: !allowed(n)
    modifies store
    ensures r.Err? ==> store.committed == old(store.committed)
    ensures r.Ok? ==>
              && AllReadable(files) && RoutedBy(SortMappings(mappings), OpenAll(files), routed)
              && Imported(old(store.committed), store.committed, r.value.counts.Keys, routed, policies, envelope)
              && r.value.records == |routed| % TWO_64
              && HoldsRecords(store.committed, r.value.counts.Keys, SortMappings(mappings), OpenAll(files))
    ensures r.Ok? <==>
              && Usable(allowed, network, mappings) && AllReadable(files)
              && exists all :: Importable(old(store.committed), SortMappings(mappings), OpenAll(files), all, policies,
                                          envelope, same)
  {
    hide RoutedBy, Imported, Importable, OpenAll, AllReadable, Checked, Usable, HoldsRecords;
    routed := [];
    var read := ReadMappings(allowed, network, mappings);
    if read.Err? { return Err(InvalidMappings(read.error)), routed; }
    UsableValid(allowed, network, mappings);
    NothingToImport(mappings, files, store.committed, policies, envelope, same);
    if files == map[] { return Err(NoSnapshots), routed; }
    var stream := OpenSnapshots(files);
    if stream.Err? { return Err(Unreadable(stream.error)), routed; }
    InputsChecked(allowed, mappings, read.value, files);
    r, routed := Run(store, read.value, stream.value, policies, envelope, same);
  }

  lemma UsableValid(allowed: Bytes -> bool, network: Bytes, mappings: seq<Mapping>)
    requires Usable(allowed, network, mappings)
    ensures mappings != [] && forall m | m in mappings :: ValidMapping(allowed, m)
  {
  }

  // Without snapshots no mapping has its channel.
  lemma NothingToImport(mappings: seq<Mapping>, files: map<Bytes, SnapshotFiles>, tables: Tables,
                        policies: map<Bytes, Bytes>, envelope: Bytes, same: (Bytes, Bytes) -> bool)
    ensures files == map[] && mappings != [] ==>
              AllReadable(files)
              && !exists all ::
                   Importable(tables, SortMappings(mappings), OpenAll(files), all, policies, envelope, same)
  {
    hide RoutedBy, ConfigReady, Targeted, NoCollision, Countable64;
    if files == map[] && mappings != [] {
      SortMappingsPermutes(mappings);
      assert mappings[0] in multiset(SortMappings(mappings));
      assert !Countable(mappings[0], OpenAll(files));
    }
  }
}
