/**
  What a session does to the limits of its user: the reports its controller takes from the
  queue become calls on the limits table (session/manager.go updateLimits, UpdateLimit in
  service/authenticate/manager.go).
 */
module Accounting {
  import opened AuthTypes
  import opened Collections
  import opened Controllers
  import opened Limits
  import opened LimitTables
  import opened LimitManagers

  // ---------- from effects to calls ----------

  function CallFor(k: UserKey, u: LimitUpdate, at: int): Op {
    match u
    case FailOne(t) => Op.Fail(k, t, at)
    case SucceedOne(t) => Op.Success(k, t, at)
    case ResetAll => Op.ResetLimits(k, at)
  }

  method UpdateLimit(m: LimitManager, k: UserKey, u: LimitUpdate, at: int)
    requires m.Valid()
    modifies m.limits.Values
    ensures m.Valid()
    ensures m.View() == TableStep(m.rules, old(m.View()), CallFor(k, u, at))
  {
    match u {
      case SucceedOne(t) => m.Success(k, t, at);
      case FailOne(t) => m.Fail(k, t, at);
      case ResetAll => m.ResetLimits(k, at);
    }
  }

  function Calls(k: UserKey, effects: seq<Effect>, at: int): seq<Op> {
    if effects == [] then []
    else
      var last := effects[|effects| - 1];
      Calls(k, effects[..|effects| - 1], at) + if last.Update? then [CallFor(k, last.update, at)] else []
  }

  /** The calls of a session that handled report i of h at the time times[i]. */
  ghost function SessionCalls(c: Controller, k: UserKey, h: seq<Report>, times: seq<int>): seq<Op>
    requires |times| == |h|
  {
    if h == [] then []
    else
      var n := |h| - 1;
      SessionCalls(c, k, h[..n], times[..n]) + Calls(k, c.Respond(h[..n], h[n]), times[n])
  }

  // ---------- what one limit sees of a session ----------

  predicate IsFailure(r: Report) {
    r.status.Failure? || r.status.Exception?
  }

  predicate PasswordPassed(r: Report) {
    r.type0.Password? && r.status.Success?
  }

  function OwnCharge(r: Report, t: AuthType, at: int): seq<Event> {
    if PasswordPassed(r) then [FullyReset(at)]
    else if r.type0 != t then []
    else if r.status.Success? then [Succeeded(at)]
    else if IsFailure(r) then [Failed(at)]
    else []
  }

  /** The events that report r, coming after the history h, puts on the limit of factor t. */
  ghost function Charge(c: Controller, h: seq<Report>, r: Report, t: AuthType, at: int): seq<Event> {
    if !r.Counted() then []
    else OwnCharge(r, t, at) + if c.Verdict(h + [r]).Success? then [FullyReset(at)] else []
  }

  ghost function Charges(c: Controller, h: seq<Report>, times: seq<int>, t: AuthType): seq<Event>
    requires |times| == |h|
  {
    if h == [] then []
    else
      var n := |h| - 1;
      Charges(c, h[..n], times[..n], t) + Charge(c, h[..n], h[n], t, times[n])
  }

  lemma {:induction false} CallsConcat(k: UserKey, e1: seq<Effect>, e2: seq<Effect>, at: int)
    ensures Calls(k, e1 + e2, at) == Calls(k, e1, at) + Calls(k, e2, at)
  {
    if e2 == [] {
      assert e1 + e2 == e1;
    } else {
      CallsConcat(k, e1, e2[..|e2| - 1], at);
      assert (e1 + e2)[..|e1 + e2| - 1] == e1 + e2[..|e2| - 1];
    }
  }

  lemma {:induction false} ProjectConcat(o1: seq<Op>, o2: seq<Op>, p: Key)
    ensures Project(o1 + o2, p) == Project(o1, p) + Project(o2, p)
  {
    if o2 != [] {
      ProjectConcat(o1, o2[..|o2| - 1], p);
      assert (o1 + o2)[..|o1 + o2| - 1] == o1 + o2[..|o2| - 1];
    } else {
      assert o1 + o2 == o1;
    }
  }

  lemma SingleCall(k: UserKey, e: Effect, at: int)
    ensures Calls(k, [e], at) == if e.Update? then [CallFor(k, e.update, at)] else []
  {
    assert [e][..0] == [];
  }

  lemma SingleEvent(op: Op, p: Key)
    ensures Project([op], p) == Touches(op, p)
  {
    assert [op][..0] == [];
  }

  /** A single effect is at most one call, which is at most one event. */
  lemma SingleEffect(k: UserKey, e: Effect, at: int, p: Key)
    ensures Project(Calls(k, [e], at), p) == if e.Update? then Touches(CallFor(k, e.update, at), p) else []
  {
    SingleCall(k, e, at);
    if e.Update? {
      SingleEvent(CallFor(k, e.update, at), p);
    }
  }

  lemma SingleUpdate(k: UserKey, u: LimitUpdate, at: int, p: Key)
    requires p.user == k
    ensures Project(Calls(k, [Update(u)], at), p) ==
            match u
            case ResetAll => [FullyReset(at)]
            case SucceedOne(t) => if t == p.type0 then [Succeeded(at)] else []
            case FailOne(t) => if t == p.type0 then [Failed(at)] else []
  {
    SingleEffect(k, Update(u), at, p);
  }

  lemma OwnUpdate(r: Report)
    ensures UpdateLimits(r.status, AuthTypeToFlag(r.type0)) ==
            if PasswordPassed(r) then [Update(ResetAll)]
            else if r.status.Success? then [Update(SucceedOne(AuthFlagToType(AuthTypeToFlag(r.type0))))]
            else if IsFailure(r) then [Update(FailOne(AuthFlagToType(AuthTypeToFlag(r.type0))))]
            else []
  {
    FlagDeterminesType(r.type0);
  }

  lemma ChargedType(u: AuthType, t: AuthType)
    requires !t.Unrecognised?
    ensures AuthFlagToType(AuthTypeToFlag(u)) == t <==> u == t
  {
    FlagDeterminesType(u);
  }

  /** The limit of factor t is charged for the reports of t: flag and type are inverse. */
  lemma OwnChargeIsCharged(k: UserKey, r: Report, t: AuthType, at: int)
    requires !t.Unrecognised? && r.Counted()
    ensures Project(Calls(k, UpdateLimits(r.status, AuthTypeToFlag(r.type0)), at), Key(k, t)) == OwnCharge(r, t, at)
  {
    OwnUpdate(r);
    ChargedType(r.type0, t);
    var u, p := AuthFlagToType(AuthTypeToFlag(r.type0)), Key(k, t);
    SingleUpdate(k, ResetAll, at, p);
    SingleUpdate(k, SucceedOne(u), at, p);
    SingleUpdate(k, FailOne(u), at, p);
  }

  lemma AnnouncementIsCharged(k: UserKey, v: Status, p: Key, at: int)
    requires p.user == k
    ensures Project(Calls(k, AnnounceVerdict(v), at), p) == if v.Success? then [FullyReset(at)] else []
  {
    if v.Success? || v.Failure? {
      CallsConcat(k, [Emit(FLAG_ALL, v)], UpdateLimits(v, FLAG_ALL), at);
      SingleEffect(k, Emit(FLAG_ALL, v), at, p);
      ProjectConcat(Calls(k, [Emit(FLAG_ALL, v)], at), Calls(k, UpdateLimits(v, FLAG_ALL), at), p);
      SingleEffect(k, Update(ResetAll), at, p);
    }
  }

  lemma ResponseIsCharged(c: Controller, k: UserKey, h: seq<Report>, r: Report, t: AuthType, at: int)
    requires !t.Unrecognised?
    ensures Project(Calls(k, c.Respond(h, r), at), Key(k, t)) == Charge(c, h, r, t, at)
  {
    var flag, v, p := AuthTypeToFlag(r.type0), c.Verdict(h + [r]), Key(k, t);
    var own, verdict := UpdateLimits(r.status, flag), AnnounceVerdict(v);
    SingleEffect(k, Emit(flag, r.status), at, p);
    if r.Counted() {
      CallsConcat(k, [Emit(flag, r.status)], own + verdict, at);
      CallsConcat(k, own, verdict, at);
      ProjectConcat(Calls(k, [Emit(flag, r.status)], at), Calls(k, own + verdict, at), p);
      ProjectConcat(Calls(k, own, at), Calls(k, verdict, at), p);
      OwnChargeIsCharged(k, r, t, at);
      AnnouncementIsCharged(k, v, p, at);
    }
  }

  /** Of all the calls of a session the limit of a factor sees exactly these events. */
  lemma {:induction false} SessionIsCharged(c: Controller, k: UserKey, h: seq<Report>, times: seq<int>, t: AuthType)
    requires |times| == |h| && !t.Unrecognised?
    ensures Project(SessionCalls(c, k, h, times), Key(k, t)) == Charges(c, h, times, t)
  {
    if h != [] {
      var n := |h| - 1;
      SessionIsCharged(c, k, h[..n], times[..n], t);
      ResponseIsCharged(c, k, h[..n], h[n], t, times[n]);
      ProjectConcat(SessionCalls(c, k, h[..n], times[..n]), Calls(k, c.Respond(h[..n], h[n]), times[n]), Key(k, t));
    }
  }

  // ---------- each failure is charged once ----------

  function CountFailed(events: seq<Event>): nat {
    if events == [] then 0
    else CountFailed(events[..|events| - 1]) + if events[|events| - 1].Failed? then 1 else 0
  }

  function CountFailures(h: seq<Report>, t: AuthType): nat {
    if h == [] then 0
    else CountFailures(h[..|h| - 1], t) + if h[|h| - 1].type0 == t && IsFailure(h[|h| - 1]) then 1 else 0
  }

  lemma {:induction false} CountFailedConcat(a: seq<Event>, b: seq<Event>)
    ensures CountFailed(a + b) == CountFailed(a) + CountFailed(b)
  {
    if b == [] {
      assert a + b == a;
    } else {
      CountFailedConcat(a, b[..|b| - 1]);
      assert (a + b)[..|a + b| - 1] == a + b[..|b| - 1];
    }
  }

  lemma ChargeCountsFailure(c: Controller, h: seq<Report>, r: Report, t: AuthType, at: int)
    ensures CountFailed(Charge(c, h, r, t, at)) == if r.type0 == t && IsFailure(r) then 1 else 0
  {
    if r.Counted() {
      var own, rest := OwnCharge(r, t, at), if c.Verdict(h + [r]).Success? then [FullyReset(at)] else [];
      CountFailedConcat(own, rest);
      assert own == [] || own == [own[0]];
      assert own != [] ==> own[..0] == [];
      assert rest != [] ==> rest[..0] == [];
    }
  }

  /** Every failure or exception a factor reports is one failure on its own limit, and nothing else is. */
  lemma {:induction false} FailuresChargedOnce(
      c: Controller, k: UserKey, h: seq<Report>, times: seq<int>, t: AuthType)
    requires |times| == |h| && !t.Unrecognised?
    ensures CountFailed(Project(SessionCalls(c, k, h, times), Key(k, t))) == CountFailures(h, t)
  {
    if h != [] {
      var n := |h| - 1;
      FailuresChargedOnce(c, k, h[..n], times[..n], t);
      ResponseIsCharged(c, k, h[..n], h[n], t, times[n]);
      ChargeCountsFailure(c, h[..n], h[n], t, times[n]);
      ProjectConcat(SessionCalls(c, k, h[..n], times[..n]), Calls(k, c.Respond(h[..n], h[n]), times[n]), Key(k, t));
      CountFailedConcat(
        Project(SessionCalls(c, k, h[..n], times[..n]), Key(k, t)),
        Project(Calls(k, c.Respond(h[..n], h[n]), times[n]), Key(k, t)));
    }
  }

  // ---------- reports that are neither success nor failure ----------

  /**
    A report that is neither success nor failure leaves every limit alone, except that a
    controller which accepts any one factor announces its standing success again: it lifts
    every limit exactly when another factor has already passed.
   */
  lemma OtherStatusesExactly(c: Controller, h: seq<Report>, r: Report, t: AuthType, at: int)
    requires !r.status.Success? && !IsFailure(r)
    ensures Charge(c, h, r, t, at) == [] <==>
            !r.Counted()
            || (if c.Single? then forall u | u in c.factors :: u != r.type0 ==> !Passed(h, u)
                else exists u | u in c.factors :: u == r.type0 || !Passed(h, u))
  {
    forall u {
      LatestStep(h, r, u);
    }
    if r.Counted() {
      var g := h + [r];
      assert forall u :: Passed(g, u) <==> u != r.type0 && Passed(h, u);
      assert c.Verdict(g).Success? <==>
             if c.Single? then exists u | u in c.factors :: Passed(g, u) else forall u | u in c.factors :: Passed(g, u);
    }
  }

  /**
    The finger has passed; then the driver of the face camera turns out to be unavailable, or
    the password, which the success has just unlocked, reports that: every limit is lifted again.
   */
  lemma LaterReportLiftsLimits(t: AuthType, at: int)
    ensures var c, h := Single([Password, Fingerprint, Face]), [Report(Fingerprint, Status.Success)];
            && Charge(c, h, Report(Face, Status.Error), t, at) == [FullyReset(at)]
            && Charge(c, h, Report(Password, Status.Unlocked), t, at) == [FullyReset(at)]
  {
    var c, h := Single([Password, Fingerprint, Face]), [Report(Fingerprint, Status.Success)];
    assert Latest(h, Fingerprint) == Some(Status.Success);
    assert Passed(h, Fingerprint) && Fingerprint in c.factors;
    OtherStatusesExactly(c, h, Report(Face, Status.Error), t, at);
    OtherStatusesExactly(c, h, Report(Password, Status.Unlocked), t, at);
  }

  // ---------- what a session leaves behind ----------

  lemma ProjectLast(ops: seq<Op>, p: Key)
    requires ops != []
    ensures Project(ops, p) == Project(ops[..|ops| - 1], p) + Touches(ops[|ops| - 1], p)
    ensures |Touches(ops[|ops| - 1], p)| <= 1
  {
  }

  /** Two runs of calls merged are, for each limit, two histories merged. */
  lemma {:induction false} ProjectMerged(own: seq<Op>, others: seq<Op>, all: seq<Op>, p: Key)
    requires Merged(own, others, all)
    ensures Merged(Project(own, p), Project(others, p), Project(all, p))
    decreases |all|
  {
    if all != [] {
      var init, last := all[..|all| - 1], all[|all| - 1];
      ProjectLast(all, p);
      if own != [] && own[|own| - 1] == last && Merged(own[..|own| - 1], others, init) {
        var own' := own[..|own| - 1];
        ProjectMerged(own', others, init, p);
        ProjectLast(own, p);
        MergedLeft(Project(own', p), Project(others, p), Project(init, p), Touches(last, p));
      } else {
        var others' := others[..|others| - 1];
        ProjectMerged(own, others', init, p);
        ProjectLast(others, p);
        MergedRight(Project(own, p), Project(others', p), Project(init, p), Touches(last, p));
      }
    }
  }

  /** Merging queries into a history changes only its queries. */
  lemma {:induction false} MergedQueriesErased(a: seq<Event>, queries: seq<Event>, c: seq<Event>)
    requires Merged(a, queries, c) && forall e | e in queries :: e.Queried?
    ensures Erase(c) == Erase(a)
    decreases |c|
  {
    if c != [] {
      var last, init := c[|c| - 1], c[..|c| - 1];
      if a != [] && a[|a| - 1] == last && Merged(a[..|a| - 1], queries, init) {
        MergedQueriesErased(a[..|a| - 1], queries, init);
      } else {
        assert forall e | e in queries[..|queries| - 1] :: e in queries;
        assert last in queries;
        MergedQueriesErased(a, queries[..|queries| - 1], init);
      }
    }
  }

  /**
    While a session runs, the daemon makes other calls: queries of the same limit, and the
    calls of other sessions. Whenever a factor is let through is decided by the ledger of the
    session's charges merged with those other calls: the controller, the flags, the table and
    the lazy limit together decide no differently from the history. Queries do not count.
   */
  lemma SessionDecides(
      rules: Rules, table: Table<Record>, c: Controller, k: UserKey, t: AuthType,
      h: seq<Report>, times: seq<int>, others: seq<Op>, all: seq<Op>, start: int, now: int)
    requires Usable(rules) && Key(k, t) in table.cells && k in table.users && !t.Unrecognised?
    requires Configured(RuleFor(rules, t), table.cells[Key(k, t)])
    requires |times| == |h| && Merged(SessionCalls(c, k, h, times), others, all) && OpsMonotone(start, all, now)
    requires forall op | op in all && op.KeepUsers? :: k.username in op.names
    ensures var rule, p, events := RuleFor(rules, t), Key(k, t), Project(all, Key(k, t));
            && Merged(Charges(c, h, times, t), Project(others, p), events)
            && (Permits(rules, TableRun(rules, table, all), k, t, now)
                <==> !Denies(rule, Replay(rule, OpeningLedger(table.cells[p]), events), now))
    ensures var rule, p := RuleFor(rules, t), Key(k, t);
            (forall e | e in Project(others, p) :: e.Queried?) ==>
              (Permits(rules, TableRun(rules, table, all), k, t, now)
               <==> !Denies(rule, Replay(rule, OpeningLedger(table.cells[p]), Charges(c, h, times, t)), now))
  {
    var rule, p, opening := RuleFor(rules, t), Key(k, t), OpeningLedger(table.cells[Key(k, t)]);
    SessionIsCharged(c, k, h, times, t);
    ProjectMerged(SessionCalls(c, k, h, times), others, all, p);
    PermissionIsIsolated(rules, table, start, all, p, now);
    if forall e | e in Project(others, p) :: e.Queried? {
      MergedQueriesErased(Charges(c, h, times, t), Project(others, p), Project(all, p));
      ReplayErased(rule, opening, Project(all, p));
      ReplayErased(rule, opening, Charges(c, h, times, t));
    }
  }

  lemma {:induction false} NoPruning(c: Controller, k: UserKey, h: seq<Report>, times: seq<int>, op: Op)
    requires |times| == |h| && op in SessionCalls(c, k, h, times)
    ensures !op.KeepUsers?
    ensures forall p: Key | p.user != k :: Touches(op, p) == []
  {
    var n := |h| - 1;
    if op in Calls(k, c.Respond(h[..n], h[n]), times[n]) {
      CallsTouchOwnUser(k, c.Respond(h[..n], h[n]), times[n], op);
    } else {
      NoPruning(c, k, h[..n], times[..n], op);
    }
  }

  lemma {:induction false} CallsTouchOwnUser(k: UserKey, effects: seq<Effect>, at: int, op: Op)
    requires op in Calls(k, effects, at)
    ensures !op.KeepUsers? && forall p: Key | p.user != k :: Touches(op, p) == []
  {
    if op in Calls(k, effects[..|effects| - 1], at) {
      CallsTouchOwnUser(k, effects[..|effects| - 1], at, op);
    }
  }

  lemma ResponseEndsInReset(c: Controller, h: seq<Report>, r: Report, t: AuthType, at: int)
    requires r.Counted() && (PasswordPassed(r) || c.Verdict(h + [r]).Success?)
    ensures var events := Charge(c, h, r, t, at);
            events != [] && events[|events| - 1] == FullyReset(at)
  {
  }

  /**
    Whatever has happened to the table, once the controller has answered a password that
    passes, or a report that settles the session with success, every limit of that user stands
    at zero failures and lets the next attempt through.
   */
  lemma SuccessLiftsEveryLimit(
      rules: Rules, table: Table<Record>, c: Controller, k: UserKey, t: AuthType,
      h: seq<Report>, r: Report, at: int, now: int)
    requires Usable(rules) && Key(k, t) in table.cells && k in table.users && !t.Unrecognised?
    requires r.Counted() && (PasswordPassed(r) || c.Verdict(h + [r]).Success?)
    ensures var after := TableRun(rules, table, Calls(k, c.Respond(h, r), at));
            && Key(k, t) in after.cells && after.cells[Key(k, t)].numFailures == 0
            && Permits(rules, after, k, t, now)
  {
    var rule, p, ops := RuleFor(rules, t), Key(k, t), Calls(k, c.Respond(h, r), at);
    var events := Charge(c, h, r, t, at);
    ResponseEndsInReset(c, h, r, t, at);
    ResponseIsCharged(c, k, h, r, t, at);
    forall op | op in ops ensures !op.KeepUsers? {
      CallsTouchOwnUser(k, c.Respond(h, r), at, op);
    }
    CellFollowsProjection(rules, table, ops, p);
    FullResetAllows(rule, RecordRun(rule, table.cells[p], events[..|events| - 1]), at, now);
  }

  lemma {:induction false} UntouchedProjection(ops: seq<Op>, p: Key)
    requires forall op | op in ops :: Touches(op, p) == []
    ensures Project(ops, p) == []
  {
    if ops != [] {
      UntouchedProjection(ops[..|ops| - 1], p);
    }
  }

  /** No session changes a limit of another user, or of the same user under the other limit type. */
  lemma OthersKeepTheirLimits(
      rules: Rules, table: Table<Record>, c: Controller, k: UserKey, h: seq<Report>, times: seq<int>, p: Key)
    requires Usable(rules) && p in table.cells && p.user in table.users && p.user != k && |times| == |h|
    ensures var after := TableRun(rules, table, SessionCalls(c, k, h, times));
            p in after.cells && after.cells[p] == table.cells[p]
  {
    var ops := SessionCalls(c, k, h, times);
    forall op | op in ops ensures !op.KeepUsers? && Touches(op, p) == [] {
      NoPruning(c, k, h, times, op);
    }
    UntouchedProjection(ops, p);
    CellFollowsProjection(rules, table, ops, p);
  }
}
