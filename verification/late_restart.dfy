/**
  Restarting from a snapshot that is not the latest state: the daemon saves after a failure,
  a success or a reset, but not after a query or after a user was opened
  (service/authenticate/manager.go).
 */
module LateRestarts {
  import opened AuthTypes
  import opened Limits
  import opened LimitTables

  /** Calls after which the daemon does not save: queries, openings, and calls to a missing limit. */
  ghost predicate Unsaved<X>(table: Table<X>, op: Op) {
    match op
    case AllowTx(_, _, _) => true
    case GetLimits(_, _) => true
    case OpenUser(_, _) => true
    case Fail(k, t, _) => Key(k, t) !in table.cells
    case Success(k, t, _) => Key(k, t) !in table.cells
    case _ => false
  }

  ghost predicate UnsavedRun(rules: Rules, ledgers: Table<Ledger>, ops: seq<Op>)
    requires Usable(rules)
  {
    forall i | 0 <= i < |ops| :: Unsaved(LedgerTableRun(rules, ledgers, ops[..i]), ops[i])
  }

  /** The restarted table lacks users who were opened since the save and whose limits are still fresh. */
  ghost predicate Lags(rules: Rules, restarted: Table<Ledger>, unbroken: Table<Ledger>) {
    && restarted.WellFormed(rules) && unbroken.WellFormed(rules)
    && restarted.users <= unbroken.users
    && forall p | p in unbroken.cells ::
         if p.user in restarted.users then p in restarted.cells && unbroken.cells[p] == restarted.cells[p]
         else unbroken.cells[p] == Ledger(0, Never)
  }

  lemma UnsavedStepLags(rules: Rules, restarted: Table<Ledger>, unbroken: Table<Ledger>, op: Op)
    requires Usable(rules) && Lags(rules, restarted, unbroken) && Unsaved(unbroken, op)
    ensures Lags(rules, restarted, LedgerTableStep(rules, unbroken, op))
  {
  }

  lemma {:induction false} UnsavedRunLags(rules: Rules, ledgers: Table<Ledger>, ops: seq<Op>)
    requires Usable(rules) && ledgers.WellFormed(rules) && UnsavedRun(rules, ledgers, ops)
    ensures Lags(rules, ledgers, LedgerTableRun(rules, ledgers, ops))
  {
    if ops != [] {
      var n := |ops| - 1;
      assert UnsavedRun(rules, ledgers, ops[..n]) by {
        assert forall i | 0 <= i < n :: ops[..n][..i] == ops[..i];
      }
      UnsavedRunLags(rules, ledgers, ops[..n]);
      UnsavedStepLags(rules, ledgers, LedgerTableRun(rules, ledgers, ops[..n]), ops[n]);
    }
  }

  /** The call does not concern a user who is there in the unbroken table only. */
  predicate Served(known: set<UserKey>, present: set<UserKey>, op: Op) {
    match op
    case AllowTx(k, _, _) => k in present ==> k in known
    case GetLimits(k, _) => k in present ==> k in known
    case Fail(k, _, _) => k in present ==> k in known
    case _ => true
  }

  lemma UpdateLags(rules: Rules, restarted: Table<Ledger>, unbroken: Table<Ledger>, scope: Scope, e: Event)
    requires Usable(rules) && Lags(rules, restarted, unbroken)
    requires e.Failed? && scope.user in unbroken.users ==> scope.user in restarted.users
    ensures Lags(rules, UpdateLedgers(rules, restarted, scope, e), UpdateLedgers(rules, unbroken, scope, e))
  {
  }

  lemma OpeningLags(rules: Rules, restarted: Table<Ledger>, unbroken: Table<Ledger>, k: UserKey)
    requires Lags(rules, restarted, unbroken)
    ensures var entry := map t | t in rules :: Ledger(0, Never);
            Lags(rules, restarted.Open(k, entry), unbroken.Open(k, entry))
  {
  }

  lemma KeepingLags(rules: Rules, restarted: Table<Ledger>, unbroken: Table<Ledger>, names: set<string>)
    requires Lags(rules, restarted, unbroken)
    ensures Lags(rules, restarted.Keep(names), unbroken.Keep(names))
  {
  }

  lemma ServedStepLags(rules: Rules, restarted: Table<Ledger>, unbroken: Table<Ledger>, op: Op)
    requires Usable(rules) && Lags(rules, restarted, unbroken) && Served(restarted.users, unbroken.users, op)
    ensures Lags(rules, LedgerTableStep(rules, restarted, op), LedgerTableStep(rules, unbroken, op))
  {
    match op {
      case OpenUser(k, _) => OpeningLags(rules, restarted, unbroken, k);
      case Fail(k, t, now) => UpdateLags(rules, restarted, unbroken, OneLimit(k, t), Failed(now));
      case Success(k, t, now) => UpdateLags(rules, restarted, unbroken, OneLimit(k, t), Succeeded(now));
      case ResetLimits(k, now) => UpdateLags(rules, restarted, unbroken, WholeUser(k), FullyReset(now));
      case KeepUsers(names, now) =>
        KeepingLags(rules, restarted, unbroken, names);
        UpdateLags(rules, restarted.Keep(names), unbroken.Keep(names), WholeUser(UserKey(Local, "")), FullyReset(now));
      case _ =>
    }
  }

  lemma ServedAnswersAgree(rules: Rules, restarted: Table<Ledger>, unbroken: Table<Ledger>, op: Op)
    requires Usable(rules) && Lags(rules, restarted, unbroken) && Served(restarted.users, unbroken.users, op)
    ensures LedgerOutput(rules, restarted, op) == LedgerOutput(rules, unbroken, op)
  {
    if op.GetLimits? {
      assert TypesOf(restarted, op.user) == TypesOf(unbroken, op.user);
    }
  }

  /** The users a table has after a run. */
  function UsersAfter(users: set<UserKey>, ops: seq<Op>): set<UserKey> {
    if ops == [] then users
    else
      var before := UsersAfter(users, ops[..|ops| - 1]);
      match ops[|ops| - 1]
      case OpenUser(k, _) => before + {k}
      case KeepUsers(names, _) => set k | k in before && k.username in names
      case _ => before
  }

  lemma {:induction false} UsersOfRun(rules: Rules, ledgers: Table<Ledger>, ops: seq<Op>)
    requires Usable(rules)
    ensures LedgerTableRun(rules, ledgers, ops).users == UsersAfter(ledgers.users, ops)
  {
    if ops != [] {
      UsersOfRun(rules, ledgers, ops[..|ops| - 1]);
    }
  }

  /** Whoever is asked about after the restart is in the snapshot, or is opened again first. */
  ghost predicate Reopens(known: set<UserKey>, present: set<UserKey>, ops: seq<Op>) {
    forall i | 0 <= i < |ops| :: Served(UsersAfter(known, ops[..i]), UsersAfter(present, ops[..i]), ops[i])
  }

  lemma ReopensPrefix(known: set<UserKey>, present: set<UserKey>, ops: seq<Op>)
    requires Reopens(known, present, ops) && ops != []
    ensures Reopens(known, present, ops[..|ops| - 1])
  {
    var n := |ops| - 1;
    forall i | 0 <= i < n
      ensures Served(UsersAfter(known, ops[..n][..i]), UsersAfter(present, ops[..n][..i]), ops[..n][i])
    {
      assert ops[..n][..i] == ops[..i];
    }
  }

  lemma {:induction false} LaggingRunsAgree(rules: Rules, restarted: Table<Ledger>, unbroken: Table<Ledger>,
        ops: seq<Op>)
    requires Usable(rules) && Lags(rules, restarted, unbroken) && Reopens(restarted.users, unbroken.users, ops)
    ensures Lags(rules, LedgerTableRun(rules, restarted, ops), LedgerTableRun(rules, unbroken, ops))
    ensures LedgerAnswers(rules, restarted, ops) == LedgerAnswers(rules, unbroken, ops)
  {
    if ops != [] {
      var init, op := ops[..|ops| - 1], ops[|ops| - 1];
      ReopensPrefix(restarted.users, unbroken.users, ops);
      LaggingRunsAgree(rules, restarted, unbroken, init);
      UsersOfRun(rules, restarted, init);
      UsersOfRun(rules, unbroken, init);
      var r, u := LedgerTableRun(rules, restarted, init), LedgerTableRun(rules, unbroken, init);
      ServedStepLags(rules, r, u, op);
      ServedAnswersAgree(rules, r, u, op);
    }
  }

  /** The tables on both sides of a restart, when the unsaved calls since the save are late. */
  lemma RestartLags(
      rules: Rules, table: Table<Record>, start: int, ops1: seq<Op>, atSave: int,
      saved: map<UserKey, seq<Saved>>, older: StateFile<map<string, seq<Saved>>>, late: seq<Op>, mid: int)
    returns (restarted: Table<Ledger>, unbroken: Table<Ledger>)
    requires Usable(rules) && table.WellFormed(rules) && AllConfigured(rules, table)
    requires OpsMonotone(start, ops1, atSave) && OpsMonotone(atSave, late, mid)
    requires Saves(TableRun(rules, table, ops1), saved)
    requires UnsavedRun(rules, LedgerTableRun(rules, OpeningTable(table), ops1), late)
    ensures TableRepresents(rules, LoadTable(rules, ChosenStates(Decoded(saved), older)), restarted, mid)
    ensures TableRepresents(rules, TableRun(rules, TableRun(rules, table, ops1), late), unbroken, mid)
    ensures Lags(rules, restarted, unbroken)
  {
    var before := TableRun(rules, table, ops1);
    restarted := LedgerTableRun(rules, OpeningTable(table), ops1);
    unbroken := LedgerTableRun(rules, restarted, late);
    StaysWellFormed(rules, table, ops1);
    PresentFileIsLoaded(rules, before, saved, older);
    OpeningRepresents(rules, table, start);
    TableRunRefines(rules, table, OpeningTable(table), start, ops1, atSave);
    RestartRepresents(rules, before, restarted, atSave);
    TableStaysRepresented(rules, RestartTable(rules, before), restarted, atSave, mid);
    TableRunRefines(rules, before, restarted, atSave, late, mid);
    UnsavedRunLags(rules, restarted, late);
  }

  /**
    A daemon that restarts from its last snapshot, taken before any queries and openings that
    followed, answers every further run as the daemon that never restarted, provided users
    opened since the snapshot are opened again before they are asked about.
   */
  lemma LateRestartIsBisimilar(
      rules: Rules, table: Table<Record>, start: int, ops1: seq<Op>, atSave: int,
      saved: map<UserKey, seq<Saved>>, older: StateFile<map<string, seq<Saved>>>, late: seq<Op>, mid: int,
      ops2: seq<Op>, now: int)
    requires Usable(rules) && table.WellFormed(rules) && AllConfigured(rules, table)
    requires OpsMonotone(start, ops1, atSave) && OpsMonotone(atSave, late, mid) && OpsMonotone(mid, ops2, now)
    requires Saves(TableRun(rules, table, ops1), saved)
    requires UnsavedRun(rules, LedgerTableRun(rules, OpeningTable(table), ops1), late)
    requires Reopens(saved.Keys, TableRun(rules, TableRun(rules, table, ops1), late).users, ops2)
    ensures TableAnswers(rules, LoadTable(rules, ChosenStates(Decoded(saved), older)), ops2)
            == TableAnswers(rules, TableRun(rules, TableRun(rules, table, ops1), late), ops2)
  {
    var unbroken := TableRun(rules, TableRun(rules, table, ops1), late);
    var r, u := RestartLags(rules, table, start, ops1, atSave, saved, older, late, mid);
    LaggingRunsAgree(rules, r, u, ops2);
    TableRunRefines(rules, LoadTable(rules, ChosenStates(Decoded(saved), older)), r, mid, ops2, now);
    TableRunRefines(rules, unbroken, u, mid, ops2, now);
  }

  /**
    Without being opened again a user is refused after the restart exactly when the user was
    opened since the snapshot: the fresh limits would have let the attempt through.
   */
  lemma LateAnswerDiffersExactly(
      rules: Rules, table: Table<Record>, start: int, ops1: seq<Op>, atSave: int,
      saved: map<UserKey, seq<Saved>>, older: StateFile<map<string, seq<Saved>>>, late: seq<Op>, mid: int,
      k: UserKey, t: AuthType)
    requires Usable(rules) && table.WellFormed(rules) && AllConfigured(rules, table)
    requires OpsMonotone(start, ops1, atSave) && OpsMonotone(atSave, late, mid)
    requires Saves(TableRun(rules, table, ops1), saved)
    requires UnsavedRun(rules, LedgerTableRun(rules, OpeningTable(table), ops1), late)
    ensures var unbroken := TableRun(rules, TableRun(rules, table, ops1), late);
            Permits(rules, LoadTable(rules, ChosenStates(Decoded(saved), older)), k, t, mid)
            != Permits(rules, unbroken, k, t, mid)
            <==> k in unbroken.users && k !in saved.Keys && t in rules
  {
    var unbroken := TableRun(rules, TableRun(rules, table, ops1), late);
    var r, u := RestartLags(rules, table, start, ops1, atSave, saved, older, late, mid);
    OutputRefines(rules, LoadTable(rules, ChosenStates(Decoded(saved), older)), r, AllowTx(k, t, mid));
    OutputRefines(rules, unbroken, u, AllowTx(k, t, mid));
  }

  /** Queries and openings are never saved; a failure, a success or a reset of a known user always is. */
  lemma UnsavedExactly<X>(table: Table<X>, op: Op)
    ensures op.AllowTx? || op.GetLimits? || op.OpenUser? ==> Unsaved(table, op)
    ensures op.ResetLimits? || op.KeepUsers? ==> !Unsaved(table, op)
    ensures op.Fail? || op.Success? ==> (Unsaved(table, op) <==> Key(op.user, op.type0) !in table.cells)
  {
  }

  /** The first user ever is opened, nothing else happens, and the daemon restarts: it does not know the user. */
  lemma OpenedUserIsForgotten(
      rules: Rules, k: UserKey, t: AuthType, older: StateFile<map<string, seq<Saved>>>, now: int)
    requires Usable(rules) && t in rules
    ensures Permits(rules, TableRun(rules, Table({}, map[]), [OpenUser(k, now)]), k, t, now)
    ensures !Permits(rules, LoadTable(rules, ChosenStates(Decoded(map[]), older)), k, t, now)
  {
    var empty: Table<Record> := Table({}, map[]);
    var late := [OpenUser(k, now)];
    assert late[..0] == [] && TableRun(rules, empty, []) == empty;
    assert Saves(empty, map[]);
    assert OpeningTable(empty) == Table({}, map[]);
    assert UnsavedRun(rules, LedgerTableRun(rules, OpeningTable(empty), []), late) by {
      assert forall i | 0 <= i < |late| :: late[i].OpenUser?;
    }
    LateAnswerDiffersExactly(rules, empty, now, [], now, map[], older, late, now, k, t);
    assert k in TableRun(rules, TableRun(rules, empty, []), late).users;
    UnknownIsRefused(rules, LoadTable(rules, ChosenStates(Decoded(map[]), older)), k, t, now);
  }
}
