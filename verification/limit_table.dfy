/**
  The table of limits of all users and the calls that use it
  (service/authenticate/manager.go).

  The daemon nests three maps, by limit type, user and factor; here one map is keyed by all
  three, and the users that have an entry are kept beside it.
 */
module LimitTables {
  import opened AuthTypes
  import opened Limits

  datatype LimitType = Local | Remote

  datatype UserKey = UserKey(limitType: LimitType, username: string)

  /** One element of the configured list of limits. */
  datatype ConfigEntry = ConfigEntry(type0: AuthType, limits: LimitConfig)

  const ALL_AUTH_TYPES: set<AuthType> := {Password, ActiveDirectory, Fingerprint, Face, UKey, Iris, Custom}

  const UNLIMITED := LimitConfig(0, 0, false, [])

  /** The rule in force for every type that has a limit. */
  type Rules = map<AuthType, LimitConfig>

  ghost predicate Usable(rules: Rules) {
    forall t | t in rules :: rules[t].Usable()
  }

  function RuleFor(rules: Rules, t: AuthType): LimitConfig {
    if t in rules then rules[t] else UNLIMITED
  }

  /** The last element configured for a type wins; a type without one is not limited. */
  function ConfigFor(config: seq<ConfigEntry>, t: AuthType): LimitConfig {
    if config == [] then UNLIMITED
    else if config[|config| - 1].type0 == t then config[|config| - 1].limits
    else ConfigFor(config[..|config| - 1], t)
  }

  function ConfiguredTypes(config: seq<ConfigEntry>): set<AuthType> {
    set e | e in config && !e.type0.Unrecognised? :: e.type0
  }

  function Resolve(config: seq<ConfigEntry>): Rules {
    map t | t in ALL_AUTH_TYPES + ConfiguredTypes(config) :: ConfigFor(config, t)
  }

  lemma {:induction false} UnconfiguredIsUnlimited(config: seq<ConfigEntry>, t: AuthType)
    requires t !in ConfiguredTypes(config) && !t.Unrecognised?
    ensures ConfigFor(config, t) == UNLIMITED
  {
    if config != [] {
      UnconfiguredIsUnlimited(config[..|config| - 1], t);
    }
  }

  lemma Resolved(config: seq<ConfigEntry>)
    ensures Resolve(config).Keys == ConfiguredTypes(config) + (ALL_AUTH_TYPES - ConfiguredTypes(config))
    ensures forall t | t in ConfiguredTypes(config) :: Resolve(config)[t] == ConfigFor(config, t)
    ensures forall t | t in ALL_AUTH_TYPES - ConfiguredTypes(config) :: Resolve(config)[t] == UNLIMITED
  {
    forall t | t in ALL_AUTH_TYPES - ConfiguredTypes(config) ensures Resolve(config)[t] == UNLIMITED {
      UnconfiguredIsUnlimited(config, t);
    }
  }

  /** One more element of the configuration adds its type, and its rule replaces an earlier one. */
  lemma ConfigGrows(config: seq<ConfigEntry>, i: nat)
    requires i < |config|
    ensures ConfiguredTypes(config[..i + 1])
            == ConfiguredTypes(config[..i]) + if config[i].type0.Unrecognised? then {} else {config[i].type0}
    ensures forall t | t != config[i].type0 :: ConfigFor(config[..i + 1], t) == ConfigFor(config[..i], t)
    ensures ConfigFor(config[..i + 1], config[i].type0) == config[i].limits
  {
    forall t {
      ConfigStep(config, i, t);
    }
  }

  lemma ConfigStep(config: seq<ConfigEntry>, i: nat, t: AuthType)
    requires i < |config|
    ensures t in ConfiguredTypes(config[..i + 1])
            <==> t in ConfiguredTypes(config[..i]) || (t == config[i].type0 && !t.Unrecognised?)
    ensures ConfigFor(config[..i + 1], t)
            == if config[i].type0 == t then config[i].limits else ConfigFor(config[..i], t)
  {
    var before, after := config[..i], config[..i + 1];
    assert after == before + [config[i]] && after[..|after| - 1] == before && after[|after| - 1] == config[i];
    if t in ConfiguredTypes(before) {
      var e :| e in before && e.type0 == t;
      assert e in after;
    }
    assert config[i] in after;
  }

  // ---------- the table as a value ----------

  datatype Key = Key(user: UserKey, type0: AuthType)

  /** One cell for every known user and every type that is limited. */
  datatype Table<X> = Table(users: set<UserKey>, cells: map<Key, X>) {
    ghost predicate WellFormed(rules: Rules) {
      forall p :: p in cells <==> p.user in users && p.type0 in rules
    }

    function Keep(names: set<string>): Table<X> {
      Table(set k | k in users && k.username in names,
            map p | p in cells && p.user.username in names :: cells[p])
    }

    /** Users who are already known keep their cells. */
    function Open(k: UserKey, entry: map<AuthType, X>): Table<X> {
      if k in users then this
      else
        Table(users + {k},
              map p | p in cells.Keys + EntryKeys(k, entry) :: if p in cells then cells[p] else entry[p.type0])
    }

    static function EntryKeys(k: UserKey, entry: map<AuthType, X>): set<Key> {
      set t | t in entry :: Key(k, t)
    }
  }

  datatype Scope = OneLimit(user: UserKey, type0: AuthType) | WholeUser(user: UserKey) {
    predicate Covers(p: Key) {
      p.user == user && (OneLimit? ==> p.type0 == type0)
    }
  }

  function FreshEntry(rules: Rules): map<AuthType, Record> {
    map t | t in rules :: FreshRecord(RuleFor(rules, t))
  }

  datatype Op =
    | OpenUser(user: UserKey, at: int)
    | AllowTx(user: UserKey, type0: AuthType, at: int)
    | Fail(user: UserKey, type0: AuthType, at: int)
    | Success(user: UserKey, type0: AuthType, at: int)
    | ResetLimits(user: UserKey, at: int)
    | KeepUsers(names: set<string>, at: int)
    | GetLimits(user: UserKey, at: int)

  datatype Output =
    | Nothing
    | Permission(allowed: bool)
    | Published(limits: map<AuthType, Export>)

  function UpdateRecords(rules: Rules, table: Table<Record>, scope: Scope, e: Event): Table<Record>
    requires Usable(rules)
  {
    table.(cells := map p | p in table.cells ::
      if scope.Covers(p) then RecordStep(RuleFor(rules, p.type0), table.cells[p], e) else table.cells[p])
  }

  lemma UpdatedTable(rules: Rules, before: Table<Record>, after: Table<Record>, scope: Scope, e: Event)
    requires Usable(rules) && after.users == before.users && after.cells.Keys == before.cells.Keys
    requires forall p | p in before.cells :: after.cells[p]
               == if scope.Covers(p) then RecordStep(RuleFor(rules, p.type0), before.cells[p], e) else before.cells[p]
    ensures after == UpdateRecords(rules, before, scope, e)
  {
    assert after.cells == UpdateRecords(rules, before, scope, e).cells;
  }

  lemma OpenedTable(before: Table<Record>, after: Table<Record>, k: UserKey, entry: map<AuthType, Record>)
    requires k !in before.users && after.users == before.users + {k}
    requires forall p :: p in after.cells <==> p in before.cells || (p.user == k && p.type0 in entry)
    requires forall p | p in after.cells ::
        after.cells[p] == if p in before.cells then before.cells[p] else entry[p.type0]
    ensures after == before.Open(k, entry)
  {
    assert after.cells == before.Open(k, entry).cells;
  }

  lemma OpenedCells(table: Table<Record>, k: UserKey, entry: map<AuthType, Record>)
    requires k !in table.users && forall p | p in table.cells :: p.user in table.users
    ensures forall t | t in entry ::
        Key(k, t) in table.Open(k, entry).cells && table.Open(k, entry).cells[Key(k, t)] == entry[t]
    ensures forall p | p in table.cells ::
        p in table.Open(k, entry).cells && table.Open(k, entry).cells[p] == table.cells[p]
  {
  }

  lemma KeptTable(before: Table<Record>, after: Table<Record>, names: set<string>)
    requires after.users == set k | k in before.users && k.username in names
    requires forall p :: p in after.cells <==> p in before.cells && p.user.username in names
    requires forall p | p in after.cells :: after.cells[p] == before.cells[p]
    ensures after == before.Keep(names)
  {
    assert after.cells == before.Keep(names).cells;
  }

  /** A missing limit is refused. */
  function Permits(rules: Rules, table: Table<Record>, k: UserKey, t: AuthType, now: int): bool
    requires Usable(rules)
  {
    Key(k, t) in table.cells && AllowRecord(RuleFor(rules, t), table.cells[Key(k, t)], now).1.Allowed?
  }

  function TypesOf<X>(table: Table<X>, k: UserKey): set<AuthType> {
    set p | p in table.cells && p.user == k :: p.type0
  }

  function ExportUser(rules: Rules, table: Table<Record>, k: UserKey, now: int): map<AuthType, Export>
    requires Usable(rules)
  {
    map t | t in TypesOf(table, k) :: ExportRecord(RuleFor(rules, t), table.cells[Key(k, t)], now)
  }

  lemma ExportedUser(rules: Rules, table: Table<Record>, k: UserKey, now: int, result: map<AuthType, Export>)
    requires Usable(rules) && forall t :: t in result <==> Key(k, t) in table.cells
    requires forall t | t in result :: result[t] == ExportRecord(RuleFor(rules, t), table.cells[Key(k, t)], now)
    ensures result == ExportUser(rules, table, k, now)
  {
  }

  function TableStep(rules: Rules, table: Table<Record>, op: Op): Table<Record>
    requires Usable(rules)
  {
    match op
    case OpenUser(k, _) => table.Open(k, FreshEntry(rules))
    case AllowTx(k, t, now) => UpdateRecords(rules, table, OneLimit(k, t), Queried(now))
    case Fail(k, t, now) => UpdateRecords(rules, table, OneLimit(k, t), Failed(now))
    case Success(k, t, now) => UpdateRecords(rules, table, OneLimit(k, t), Succeeded(now))
    case ResetLimits(k, now) => UpdateRecords(rules, table, WholeUser(k), FullyReset(now))
    case KeepUsers(names, now) =>
      UpdateRecords(rules, table.Keep(names), WholeUser(UserKey(Local, "")), FullyReset(now))
    case GetLimits(k, now) => UpdateRecords(rules, table, WholeUser(k), Queried(now))
  }

  function TableOutput(rules: Rules, table: Table<Record>, op: Op): Output
    requires Usable(rules)
  {
    match op
    case AllowTx(k, t, now) => Permission(Permits(rules, table, k, t, now))
    case GetLimits(k, now) => Published(ExportUser(rules, table, k, now))
    case _ => Nothing
  }

  // ---------- the meaning: a table of ledgers, on which queries do nothing ----------

  function UpdateLedgers(rules: Rules, table: Table<Ledger>, scope: Scope, e: Event): Table<Ledger>
    requires Usable(rules)
  {
    table.(cells := map p | p in table.cells ::
      if scope.Covers(p) then LedgerStep(RuleFor(rules, p.type0), table.cells[p], e) else table.cells[p])
  }

  function LedgerTableStep(rules: Rules, table: Table<Ledger>, op: Op): Table<Ledger>
    requires Usable(rules)
  {
    match op
    case OpenUser(k, _) => table.Open(k, map t | t in rules :: Ledger(0, Never))
    case AllowTx(_, _, _) => table
    case Fail(k, t, now) => UpdateLedgers(rules, table, OneLimit(k, t), Failed(now))
    case Success(k, t, now) => UpdateLedgers(rules, table, OneLimit(k, t), Succeeded(now))
    case ResetLimits(k, now) => UpdateLedgers(rules, table, WholeUser(k), FullyReset(now))
    case KeepUsers(names, now) =>
      UpdateLedgers(rules, table.Keep(names), WholeUser(UserKey(Local, "")), FullyReset(now))
    case GetLimits(_, _) => table
  }

  /** The period of a dynamic limit that is not in force is not determined by the ledger. */
  function Shown(c: LimitConfig, e: Export): Export {
    if c.maxTries == 0 && c.dynamicLimit then e.(unlockSecs := 0) else e
  }

  function ShownOutput(rules: Rules, out: Output): Output {
    match out
    case Published(m) => Published(ShownExports(rules, m))
    case _ => out
  }

  function LedgerOutput(rules: Rules, table: Table<Ledger>, op: Op): Output
    requires Usable(rules)
  {
    match op
    case AllowTx(k, t, now) =>
      Permission(Key(k, t) in table.cells && !Denies(RuleFor(rules, t), table.cells[Key(k, t)], now))
    case GetLimits(k, now) =>
      Published(LedgerExports(rules, table, k, now))
    case _ => Nothing
  }

  ghost predicate TableRepresents(rules: Rules, table: Table<Record>, ledgers: Table<Ledger>, t: int)
    requires Usable(rules)
  {
    && table.users == ledgers.users
    && table.cells.Keys == ledgers.cells.Keys
    && forall p | p in table.cells :: Represents(RuleFor(rules, p.type0), table.cells[p], ledgers.cells[p], t)
  }

  lemma StaysRepresented(c: LimitConfig, r: Record, l: Ledger, t: int, now: int)
    requires c.Usable() && Represents(c, r, l, t) && t <= now
    ensures Represents(c, r, l, now)
  {
  }

  lemma TableStaysRepresented(rules: Rules, table: Table<Record>, ledgers: Table<Ledger>, t: int, now: int)
    requires Usable(rules) && TableRepresents(rules, table, ledgers, t) && t <= now
    ensures TableRepresents(rules, table, ledgers, now)
  {
    forall p | p in table.cells
      ensures Represents(RuleFor(rules, p.type0), table.cells[p], ledgers.cells[p], now)
    {
      StaysRepresented(RuleFor(rules, p.type0), table.cells[p], ledgers.cells[p], t, now);
    }
  }

  lemma UpdateRefines(rules: Rules, table: Table<Record>, ledgers: Table<Ledger>, scope: Scope, e: Event)
    requires Usable(rules) && TableRepresents(rules, table, ledgers, e.at)
    ensures TableRepresents(rules, UpdateRecords(rules, table, scope, e), UpdateLedgers(rules, ledgers, scope, e), e.at)
  {
    forall p | p in table.cells && scope.Covers(p)
      ensures Represents(RuleFor(rules, p.type0), RecordStep(RuleFor(rules, p.type0), table.cells[p], e),
                         LedgerStep(RuleFor(rules, p.type0), ledgers.cells[p], e), e.at)
    {
      StepRefines(RuleFor(rules, p.type0), table.cells[p], ledgers.cells[p], e.at, e);
    }
  }

  lemma QueriesLeaveLedgers(rules: Rules, ledgers: Table<Ledger>, scope: Scope, now: int)
    requires Usable(rules)
    ensures UpdateLedgers(rules, ledgers, scope, Queried(now)) == ledgers
  {
    assert UpdateLedgers(rules, ledgers, scope, Queried(now)).cells == ledgers.cells;
  }

  lemma ExportRefines(c: LimitConfig, r: Record, l: Ledger, now: int)
    requires c.Usable() && Represents(c, r, l, now)
    ensures Shown(c, ExportRecord(c, r, now)) == Shown(c, LedgerExport(c, l, now))
  {
    QueryRefines(c, r, l, now, now);
  }

  function LedgerExports(rules: Rules, table: Table<Ledger>, k: UserKey, now: int): map<AuthType, Export>
    requires Usable(rules)
  {
    map t | t in TypesOf(table, k) ::
        Shown(RuleFor(rules, t), LedgerExport(RuleFor(rules, t), table.cells[Key(k, t)], now))
  }

  function ShownExports(rules: Rules, exports: map<AuthType, Export>): map<AuthType, Export> {
    map t | t in exports :: Shown(RuleFor(rules, t), exports[t])
  }

  lemma ExportsRefine(rules: Rules, table: Table<Record>, ledgers: Table<Ledger>, k: UserKey, now: int)
    requires Usable(rules) && TableRepresents(rules, table, ledgers, now)
    ensures ShownExports(rules, ExportUser(rules, table, k, now)) == LedgerExports(rules, ledgers, k, now)
  {
    assert TypesOf(table, k) == TypesOf(ledgers, k);
    forall t | t in TypesOf(table, k)
      ensures ShownExports(rules, ExportUser(rules, table, k, now))[t] == LedgerExports(rules, ledgers, k, now)[t]
    {
      ExportRefines(RuleFor(rules, t), table.cells[Key(k, t)], ledgers.cells[Key(k, t)], now);
    }
  }

  lemma OutputRefines(rules: Rules, table: Table<Record>, ledgers: Table<Ledger>, op: Op)
    requires Usable(rules) && TableRepresents(rules, table, ledgers, op.at)
    ensures ShownOutput(rules, TableOutput(rules, table, op)) == LedgerOutput(rules, ledgers, op)
  {
    match op
    case AllowTx(k, t, now) =>
      if Key(k, t) in table.cells {
        QueryRefines(RuleFor(rules, t), table.cells[Key(k, t)], ledgers.cells[Key(k, t)], now, now);
      }
    case GetLimits(k, now) =>
      ExportsRefine(rules, table, ledgers, k, now);
    case _ =>
  }

  lemma TableStepRefines(rules: Rules, table: Table<Record>, ledgers: Table<Ledger>, t: int, op: Op)
    requires Usable(rules) && TableRepresents(rules, table, ledgers, t) && t <= op.at
    ensures TableRepresents(rules, TableStep(rules, table, op), LedgerTableStep(rules, ledgers, op), op.at)
    ensures ShownOutput(rules, TableOutput(rules, table, op)) == LedgerOutput(rules, ledgers, op)
  {
    TableStaysRepresented(rules, table, ledgers, t, op.at);
    OutputRefines(rules, table, ledgers, op);
    match op
    case OpenUser(_, _) =>
    case AllowTx(k, a, now) =>
      UpdateRefines(rules, table, ledgers, OneLimit(k, a), Queried(now));
      QueriesLeaveLedgers(rules, ledgers, OneLimit(k, a), now);
    case Fail(k, a, now) => UpdateRefines(rules, table, ledgers, OneLimit(k, a), Failed(now));
    case Success(k, a, now) => UpdateRefines(rules, table, ledgers, OneLimit(k, a), Succeeded(now));
    case ResetLimits(k, now) => UpdateRefines(rules, table, ledgers, WholeUser(k), FullyReset(now));
    case KeepUsers(names, now) =>
      UpdateRefines(rules, table.Keep(names), ledgers.Keep(names), WholeUser(UserKey(Local, "")), FullyReset(now));
    case GetLimits(k, now) =>
      UpdateRefines(rules, table, ledgers, WholeUser(k), Queried(now));
      QueriesLeaveLedgers(rules, ledgers, WholeUser(k), now);
  }

  // ---------- runs of the table ----------

  ghost predicate OpsMonotone(start: int, ops: seq<Op>, now: int) {
    && start <= now
    && (forall i | 0 <= i < |ops| :: start <= ops[i].at <= now)
    && (forall i, j | 0 <= i <= j < |ops| :: ops[i].at <= ops[j].at)
  }

  function TableRun(rules: Rules, table: Table<Record>, ops: seq<Op>): Table<Record>
    requires Usable(rules)
  {
    if ops == [] then table else TableStep(rules, TableRun(rules, table, ops[..|ops| - 1]), ops[|ops| - 1])
  }

  /** The answers clients see, in order. */
  function TableAnswers(rules: Rules, table: Table<Record>, ops: seq<Op>): seq<Output>
    requires Usable(rules)
  {
    if ops == [] then []
    else
      var before := TableRun(rules, table, ops[..|ops| - 1]);
      TableAnswers(rules, table, ops[..|ops| - 1]) + [ShownOutput(rules, TableOutput(rules, before, ops[|ops| - 1]))]
  }

  function LedgerTableRun(rules: Rules, ledgers: Table<Ledger>, ops: seq<Op>): Table<Ledger>
    requires Usable(rules)
  {
    if ops == [] then ledgers
    else LedgerTableStep(rules, LedgerTableRun(rules, ledgers, ops[..|ops| - 1]), ops[|ops| - 1])
  }

  function LedgerAnswers(rules: Rules, ledgers: Table<Ledger>, ops: seq<Op>): seq<Output>
    requires Usable(rules)
  {
    if ops == [] then []
    else
      var before := LedgerTableRun(rules, ledgers, ops[..|ops| - 1]);
      LedgerAnswers(rules, ledgers, ops[..|ops| - 1]) + [LedgerOutput(rules, before, ops[|ops| - 1])]
  }

  /** On every run of the table every answer is the one the table of ledgers gives. */
  lemma {:induction false} TableRunRefines(
      rules: Rules, table: Table<Record>, ledgers: Table<Ledger>, start: int, ops: seq<Op>, now: int)
    requires Usable(rules) && TableRepresents(rules, table, ledgers, start) && OpsMonotone(start, ops, now)
    ensures TableRepresents(rules, TableRun(rules, table, ops), LedgerTableRun(rules, ledgers, ops), now)
    ensures TableAnswers(rules, table, ops) == LedgerAnswers(rules, ledgers, ops)
  {
    if ops == [] {
      TableStaysRepresented(rules, table, ledgers, start, now);
    } else {
      var init, op := ops[..|ops| - 1], ops[|ops| - 1];
      TableRunRefines(rules, table, ledgers, start, init, op.at);
      TableStepRefines(rules, TableRun(rules, table, init), LedgerTableRun(rules, ledgers, init), op.at, op);
      TableStaysRepresented(rules, TableRun(rules, table, ops), LedgerTableRun(rules, ledgers, ops), op.at, now);
    }
  }

  // ---------- isolation ----------

  /** What one call does to one limit. */
  function Touches(op: Op, p: Key): seq<Event> {
    match op
    case OpenUser(_, _) => []
    case AllowTx(k, t, now) => if Key(k, t) == p then [Queried(now)] else []
    case Fail(k, t, now) => if Key(k, t) == p then [Failed(now)] else []
    case Success(k, t, now) => if Key(k, t) == p then [Succeeded(now)] else []
    case ResetLimits(k, now) => if k == p.user then [FullyReset(now)] else []
    case KeepUsers(_, now) => if p.user == UserKey(Local, "") then [FullyReset(now)] else []
    case GetLimits(k, now) => if k == p.user then [Queried(now)] else []
  }

  function Project(ops: seq<Op>, p: Key): seq<Event> {
    if ops == [] then [] else Project(ops[..|ops| - 1], p) + Touches(ops[|ops| - 1], p)
  }

  lemma {:induction false} ProjectionMonotone(start: int, ops: seq<Op>, p: Key, now: int)
    requires OpsMonotone(start, ops, now)
    ensures ClockMonotone(start, Project(ops, p), now)
    ensures forall i | 0 <= i < |Project(ops, p)| :: ops != [] && Project(ops, p)[i].at <= ops[|ops| - 1].at
  {
    if ops != [] {
      ProjectionMonotone(start, ops[..|ops| - 1], p, ops[|ops| - 1].at);
    }
  }

  lemma StepTouches(rules: Rules, table: Table<Record>, op: Op, p: Key)
    requires Usable(rules) && p in table.cells && p.user in table.users
    requires op.KeepUsers? ==> p.user.username in op.names
    ensures var after := TableStep(rules, table, op);
            p in after.cells && p.user in after.users
            && after.cells[p] == RecordRun(RuleFor(rules, p.type0), table.cells[p], Touches(op, p))
  {
    var c, events := RuleFor(rules, p.type0), Touches(op, p);
    if events != [] {
      assert events[..0] == [];
      assert RecordRun(c, table.cells[p], events) == RecordStep(c, table.cells[p], events[0]);
    }
  }

  /** A limit that stays in the table has exactly the history of the calls that concern it. */
  lemma {:induction false} CellFollowsProjection(rules: Rules, table: Table<Record>, ops: seq<Op>, p: Key)
    requires Usable(rules) && p in table.cells && p.user in table.users
    requires forall op | op in ops && op.KeepUsers? :: p.user.username in op.names
    ensures var after := TableRun(rules, table, ops);
            p in after.cells && p.user in after.users
            && after.cells[p] == RecordRun(RuleFor(rules, p.type0), table.cells[p], Project(ops, p))
  {
    if ops != [] {
      var init, op := ops[..|ops| - 1], ops[|ops| - 1];
      CellFollowsProjection(rules, table, init, p);
      assert op in ops;
      StepTouches(rules, TableRun(rules, table, init), op, p);
      RunConcat(RuleFor(rules, p.type0), table.cells[p], Project(init, p), Touches(op, p));
    }
  }

  /**
    Whether an attempt is let through depends on the calls for that user and that factor
    alone, and on those exactly as the history of the limit says.
   */
  lemma PermissionIsIsolated(rules: Rules, table: Table<Record>, start: int, ops: seq<Op>, p: Key, now: int)
    requires Usable(rules) && p in table.cells && p.user in table.users && OpsMonotone(start, ops, now)
    requires Configured(RuleFor(rules, p.type0), table.cells[p])
    requires forall op | op in ops && op.KeepUsers? :: p.user.username in op.names
    ensures var c := RuleFor(rules, p.type0);
            Permits(rules, TableRun(rules, table, ops), p.user, p.type0, now)
            <==> !Denies(c, Replay(c, OpeningLedger(table.cells[p]), Project(ops, p)), now)
  {
    CellFollowsProjection(rules, table, ops, p);
    ProjectionMonotone(start, ops, p, now);
    VerdictOfHistory(RuleFor(rules, p.type0), table.cells[p], start, Project(ops, p), now);
  }

  lemma OpenedIsWellFormed(rules: Rules, table: Table<Record>, k: UserKey)
    requires table.WellFormed(rules)
    ensures table.Open(k, FreshEntry(rules)).WellFormed(rules)
  {
  }

  lemma StepIsWellFormed(rules: Rules, table: Table<Record>, op: Op)
    requires Usable(rules) && table.WellFormed(rules)
    ensures TableStep(rules, table, op).WellFormed(rules)
  {
    match op {
      case OpenUser(k, _) => OpenedIsWellFormed(rules, table, k);
      case KeepUsers(names, _) => assert table.Keep(names).WellFormed(rules);
      case _ =>
    }
  }

  lemma {:induction false} StaysWellFormed(rules: Rules, table: Table<Record>, ops: seq<Op>)
    requires Usable(rules) && table.WellFormed(rules)
    ensures TableRun(rules, table, ops).WellFormed(rules)
  {
    if ops != [] {
      StaysWellFormed(rules, table, ops[..|ops| - 1]);
      StepIsWellFormed(rules, TableRun(rules, table, ops[..|ops| - 1]), ops[|ops| - 1]);
    }
  }

  /** A change of the user list removes exactly the absent users and changes no other limit. */
  lemma UserListPrunesExactly(rules: Rules, table: Table<Record>, names: set<string>, now: int)
    requires Usable(rules) && table.WellFormed(rules)
    ensures var after := TableStep(rules, table, KeepUsers(names, now));
            && (forall k :: k in after.users <==> k in table.users && k.username in names)
            && (forall p | p in table.cells && p.user.username in names && p.user != UserKey(Local, "") ::
                  p in after.cells && after.cells[p] == table.cells[p])
            && (forall p | p in after.cells :: p in table.cells && p.user.username in names)
            && (forall p | p in after.cells && p.user == UserKey(Local, "") ::
                  after.cells[p].numFailures == 0 && after.cells[p].lockAt == Never)
  {
  }

  // ---------- saving and loading ----------

  /** What is written to disk for one limit. */
  datatype Saved = Saved(type0: AuthType, numFailures: int, lockAt: Stamp)

  function SavedRecord(t: AuthType, r: Record): Saved {
    Saved(t, r.numFailures, r.lockAt)
  }

  /** The list holds every limit of the user once, in whatever order the map was walked. */
  ghost predicate Lists(table: Table<Record>, k: UserKey, states: seq<Saved>) {
    && (forall s | s in states ::
          Key(k, s.type0) in table.cells && s == SavedRecord(s.type0, table.cells[Key(k, s.type0)]))
    && (forall p | p in table.cells && p.user == k :: SavedRecord(p.type0, table.cells[p]) in states)
    && (forall i, j | 0 <= i < j < |states| :: states[i].type0 != states[j].type0)
  }

  ghost predicate Saves(table: Table<Record>, saved: map<UserKey, seq<Saved>>) {
    saved.Keys == table.users && forall k | k in saved :: Lists(table, k, saved[k])
  }

  function LoadList(entry: map<AuthType, Record>, states: seq<Saved>): (loaded: map<AuthType, Record>)
    ensures loaded.Keys == entry.Keys
  {
    if states == [] then entry
    else
      var before := LoadList(entry, states[..|states| - 1]);
      var s := states[|states| - 1];
      if s.type0 in before
      then before[s.type0 := Record(s.numFailures, s.lockAt, before[s.type0].unlockSecs)] else before
  }

  lemma {:induction false} LoadListAnyOrder(entry: map<AuthType, Record>, states: seq<Saved>)
    requires forall i, j | 0 <= i < j < |states| :: states[i].type0 != states[j].type0
    ensures forall t | t in entry :: LoadList(entry, states)[t].unlockSecs == entry[t].unlockSecs
    ensures forall s | s in states && s.type0 in entry ::
              && LoadList(entry, states)[s.type0].numFailures == s.numFailures
              && LoadList(entry, states)[s.type0].lockAt == s.lockAt
  {
    if states != [] {
      LoadListAnyOrder(entry, states[..|states| - 1]);
    }
  }

  function LoadUser(rules: Rules, states: seq<Saved>): (entry: map<AuthType, Record>)
    ensures entry.Keys == rules.Keys
  {
    LoadList(FreshEntry(rules), states)
  }

  function LoadTable(rules: Rules, saved: map<UserKey, seq<Saved>>): Table<Record> {
    var types := rules.Keys;
    Table(saved.Keys,
          map p | p in (set k, t | k in saved && t in types :: Key(k, t)) :: LoadUser(rules, saved[p.user])[p.type0])
  }

  lemma LoadOneMore(entry: map<AuthType, Record>, states: seq<Saved>, i: nat)
    requires i < |states|
    ensures var before, s := LoadList(entry, states[..i]), states[i];
            LoadList(entry, states[..i + 1])
            == if s.type0 in before then before[s.type0 := Record(s.numFailures, s.lockAt, before[s.type0].unlockSecs)]
               else before
  {
    assert states[..i + 1][..i] == states[..i];
  }

  lemma LoadedTable(rules: Rules, saved: map<UserKey, seq<Saved>>, table: Table<Record>)
    requires table.users == saved.Keys && table.WellFormed(rules)
    requires forall p | p in table.cells :: table.cells[p] == LoadUser(rules, saved[p.user])[p.type0]
    ensures table == LoadTable(rules, saved)
  {
    assert table.cells == LoadTable(rules, saved).cells;
  }

  /** Every record rebuilt from what is saved of it. */
  function RestartTable(rules: Rules, table: Table<Record>): Table<Record> {
    table.(cells := map p | p in table.cells :: RestartRecord(RuleFor(rules, p.type0), table.cells[p]))
  }

  lemma LoadUndoesSaveFor(rules: Rules, table: Table<Record>, k: UserKey, states: seq<Saved>)
    requires table.WellFormed(rules) && k in table.users && Lists(table, k, states)
    ensures forall t | t in rules ::
              LoadUser(rules, states)[t] == RestartRecord(RuleFor(rules, t), table.cells[Key(k, t)])
  {
    LoadListAnyOrder(FreshEntry(rules), states);
    forall t | t in rules
      ensures LoadUser(rules, states)[t] == RestartRecord(RuleFor(rules, t), table.cells[Key(k, t)])
    {
      assert SavedRecord(t, table.cells[Key(k, t)]) in states;
    }
  }

  lemma LoadedCell(rules: Rules, table: Table<Record>, saved: map<UserKey, seq<Saved>>, p: Key)
    requires table.WellFormed(rules) && Saves(table, saved)
    ensures p in LoadTable(rules, saved).cells <==> p in table.cells
    ensures p in table.cells ==>
              LoadTable(rules, saved).cells[p] == RestartRecord(RuleFor(rules, p.type0), table.cells[p])
  {
    if p in table.cells {
      LoadUndoesSaveFor(rules, table, p.user, saved[p.user]);
    }
  }

  /** Loading gives back the saved table whatever order the lists were written in. */
  lemma LoadUndoesSave(rules: Rules, table: Table<Record>, saved: map<UserKey, seq<Saved>>)
    requires table.WellFormed(rules) && Saves(table, saved)
    ensures LoadTable(rules, saved) == RestartTable(rules, table)
  {
    forall p {
      LoadedCell(rules, table, saved, p);
    }
    SameCells(LoadTable(rules, saved), RestartTable(rules, table));
  }

  lemma SameCells(a: Table<Record>, b: Table<Record>)
    requires a.users == b.users
    requires forall p :: p in a.cells <==> p in b.cells
    requires forall p | p in a.cells :: a.cells[p] == b.cells[p]
    ensures a == b
  {
    assert a.cells == b.cells;
  }

  function OpeningTable(table: Table<Record>): Table<Ledger> {
    Table(table.users, map p | p in table.cells :: OpeningLedger(table.cells[p]))
  }

  ghost predicate AllConfigured(rules: Rules, table: Table<Record>) {
    forall p | p in table.cells :: Configured(RuleFor(rules, p.type0), table.cells[p])
  }

  lemma OpeningRepresents(rules: Rules, table: Table<Record>, t: int)
    requires Usable(rules) && AllConfigured(rules, table)
    ensures TableRepresents(rules, table, OpeningTable(table), t)
  {
  }

  lemma RestartRepresents(rules: Rules, table: Table<Record>, ledgers: Table<Ledger>, t: int)
    requires Usable(rules) && TableRepresents(rules, table, ledgers, t)
    ensures TableRepresents(rules, RestartTable(rules, table), ledgers, t)
  {
  }

  // ---------- the two state files ----------

  /** A file with an ill-typed value is refused, but what could be decoded of it stands. */
  datatype StateFile<T> = Missing | Refused(partial: T) | Decoded(states: T)

  function BothTypes(names: set<string>): set<UserKey> {
    (set n | n in names :: UserKey(Local, n)) + set n | n in names :: UserKey(Remote, n)
  }

  /** Without a file of the present format the older one is taken over for both limit types. */
  function ChosenStates(v1: StateFile<map<UserKey, seq<Saved>>>, older: StateFile<map<string, seq<Saved>>>)
    : map<UserKey, seq<Saved>>
  {
    match v1
    case Decoded(states) => states
    case Refused(partial) => partial
    case Missing =>
      if older.Decoded? then map k | k in BothTypes(older.states.Keys) :: older.states[k.username] else map[]
  }

  /** A daemon that finds only the older file gives a user the same limits locally and remotely. */
  lemma OlderFileServesBothTypes(rules: Rules, older: map<string, seq<Saved>>, n: string, t: AuthType)
    requires Usable(rules)
    ensures var table := LoadTable(rules, ChosenStates(Missing, Decoded(older)));
            && table.users == BothTypes(older.Keys)
            && (Key(UserKey(Local, n), t) in table.cells <==> n in older && t in rules)
            && (n in older && t in rules ==>
                  && Key(UserKey(Remote, n), t) in table.cells
                  && table.cells[Key(UserKey(Local, n), t)] == table.cells[Key(UserKey(Remote, n), t)]
                  && table.cells[Key(UserKey(Local, n), t)] == LoadUser(rules, older[n])[t])
  {
    var saved := ChosenStates(Missing, Decoded(older));
    assert saved.Keys == BothTypes(older.Keys);
    if n in older {
      assert UserKey(Local, n) in saved && UserKey(Remote, n) in saved;
    }
  }

  /** A readable file of the present format is the one that is loaded, whatever the older one holds. */
  lemma PresentFileIsLoaded(
      rules: Rules, table: Table<Record>, saved: map<UserKey, seq<Saved>>, older: StateFile<map<string, seq<Saved>>>)
    requires table.WellFormed(rules) && Saves(table, saved)
    ensures LoadTable(rules, ChosenStates(Decoded(saved), older)) == RestartTable(rules, table)
  {
    LoadUndoesSave(rules, table, saved);
  }

  /** Of a refused file what could be decoded is loaded; with no usable file nobody is known. */
  lemma OtherFilesAreLoaded(
      rules: Rules, v1: StateFile<map<UserKey, seq<Saved>>>, older: StateFile<map<string, seq<Saved>>>)
    ensures v1.Refused? ==> LoadTable(rules, ChosenStates(v1, older)) == LoadTable(rules, v1.partial)
    ensures v1.Missing? && !older.Decoded? ==> LoadTable(rules, ChosenStates(v1, older)) == Table({}, map[])
  {
    if v1.Missing? && !older.Decoded? {
      assert LoadTable(rules, map[]).cells == map[];
    }
  }

  /**
    A daemon that saves its table after one run, restarts and loads it under the same
    configuration answers every further run as the daemon that never restarted, whatever an
    older state file says.
   */
  lemma RestartedTableIsBisimilar(
      rules: Rules, table: Table<Record>, start: int, ops1: seq<Op>, mid: int,
      saved: map<UserKey, seq<Saved>>, older: StateFile<map<string, seq<Saved>>>, ops2: seq<Op>, now: int)
    requires Usable(rules) && table.WellFormed(rules) && AllConfigured(rules, table)
    requires OpsMonotone(start, ops1, mid) && OpsMonotone(mid, ops2, now)
    requires Saves(TableRun(rules, table, ops1), saved)
    ensures TableAnswers(rules, LoadTable(rules, ChosenStates(Decoded(saved), older)), ops2)
            == TableAnswers(rules, TableRun(rules, table, ops1), ops2)
  {
    var unbroken := TableRun(rules, table, ops1);
    var ledgers := LedgerTableRun(rules, OpeningTable(table), ops1);
    StaysWellFormed(rules, table, ops1);
    PresentFileIsLoaded(rules, unbroken, saved, older);
    OpeningRepresents(rules, table, start);
    TableRunRefines(rules, table, OpeningTable(table), start, ops1, mid);
    RestartRepresents(rules, unbroken, ledgers, mid);
    TableRunRefines(rules, unbroken, ledgers, mid, ops2, now);
    TableRunRefines(rules, RestartTable(rules, unbroken), ledgers, mid, ops2, now);
  }

  /** A full reset of a user leaves every limit of that user at zero failures and allowed. */
  lemma ResetUserAllows(rules: Rules, table: Table<Record>, k: UserKey, t: AuthType, at: int, now: int)
    requires Usable(rules) && Key(k, t) in table.cells
    ensures var after := TableStep(rules, table, ResetLimits(k, at));
            && Key(k, t) in after.cells && after.cells[Key(k, t)].numFailures == 0
            && Permits(rules, after, k, t, now)
  {
    FullResetAllows(RuleFor(rules, t), table.cells[Key(k, t)], at, now);
  }

  // ---------- types without an element of the configuration ----------

  ghost predicate Unconfigured(config: seq<ConfigEntry>, t: AuthType) {
    forall e | e in config :: e.type0 != t
  }

  /** The user is opened by call i and stays on every later user list. */
  ghost predicate OpenSince(ops: seq<Op>, k: UserKey, i: int) {
    && 0 <= i < |ops| && ops[i].OpenUser? && ops[i].user == k
    && forall j | i < j < |ops| && ops[j].KeepUsers? :: k.username in ops[j].names
  }

  lemma {:induction false} OpenedIsThere(rules: Rules, table: Table<Record>, ops: seq<Op>, k: UserKey, i: int)
    requires Usable(rules) && OpenSince(ops, k, i)
    ensures k in TableRun(rules, table, ops).users
  {
    if i < |ops| - 1 {
      OpenedIsThere(rules, table, ops[..|ops| - 1], k, i);
    }
  }

  lemma UnconfiguredRule(config: seq<ConfigEntry>, t: AuthType)
    requires Unconfigured(config, t)
    ensures t in Resolve(config)
            <==> t in {Password, ActiveDirectory, Fingerprint, Face, UKey, Iris, Custom}
    ensures t in Resolve(config) ==> Resolve(config)[t].maxTries == 0 && Resolve(config)[t].unlockSecs == 0
  {
    if t in ALL_AUTH_TYPES {
      UnconfiguredIsUnlimited(config, t);
    }
  }

  /**
    On every run of a daemon that starts without saved states, a user who has been opened is
    let through with a factor the configuration leaves out, however often it has failed,
    exactly if it is one of the seven that have a limit at all.
   */
  lemma UnconfiguredIsPermittedExactly(config: seq<ConfigEntry>, ops: seq<Op>, k: UserKey, i: int, t: AuthType,
        now: int)
    requires Usable(Resolve(config)) && OpenSince(ops, k, i) && Unconfigured(config, t)
    ensures Permits(Resolve(config), TableRun(Resolve(config), Table({}, map[]), ops), k, t, now)
            <==> t in {Password, ActiveDirectory, Fingerprint, Face, UKey, Iris, Custom}
  {
    var rules := Resolve(config);
    StaysWellFormed(rules, Table({}, map[]), ops);
    OpenedIsThere(rules, Table({}, map[]), ops, k, i);
    UnconfiguredRule(config, t);
    var table := TableRun(rules, Table({}, map[]), ops);
    if t in rules {
      NoMaximumNeverRefuses(rules[t], table.cells[Key(k, t)], now);
    }
  }

  /** Nobody is let through without having been opened. */
  lemma UnknownIsRefused(rules: Rules, table: Table<Record>, k: UserKey, t: AuthType, now: int)
    requires Usable(rules) && table.WellFormed(rules) && k !in table.users
    ensures !Permits(rules, table, k, t, now)
  {
  }

  // ---------- the answers ----------

  /**
    The two questions agree: a query tells whether the next attempt is let through, and the
    published limits, one for every limit the user has, say the same of each.
   */
  lemma AnswersAgree(rules: Rules, table: Table<Record>, k: UserKey, now: int)
    requires Usable(rules)
    ensures forall t :: TableOutput(rules, table, AllowTx(k, t, now)) == Permission(Permits(rules, table, k, t, now))
    ensures var out := TableOutput(rules, table, GetLimits(k, now));
            && out.Published?
            && (forall t :: t in out.limits <==> Key(k, t) in table.cells)
            && forall t | t in out.limits ::
                 && (out.limits[t].verdict.Allowed? <==> Permits(rules, table, k, t, now))
                 && out.limits[t] == ExportRecord(RuleFor(rules, t), table.cells[Key(k, t)], now)
  {
    var out := TableOutput(rules, table, GetLimits(k, now));
    forall t ensures t in out.limits <==> Key(k, t) in table.cells {
      assert Key(k, t) in table.cells ==> t in TypesOf(table, k);
    }
  }
}
