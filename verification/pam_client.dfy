/**
  The client of a session that demands several factors: it starts them one after another,
  driven by the status signals of the daemon (misc/pam-module/auth/mfa.c, pam.c).
 */
module PamClient {
  import opened AuthTypes
  import opened Collections
  import opened FactorOrders

  /** One status signal; code is the integer the status travels as. */
  datatype Signal = Signal(flag: Flag, code: int)

  const CODE_SUCCESS := 0
  const CODE_FAILURE := 1
  const CODE_PROMPT := 7

  /** The result the client hands to PAM; -1 in the code is Undecided. */
  datatype Result = Undecided | PamSuccess | PamAuthErr | PamAbort | PamMaxTries

  /** The calls the client makes to the session. */
  datatype Call = Start(flag: Flag) | End(flag: Flag)

  /** What the surroundings answer while one signal is handled. */
  datatype Env = Env(startFails: bool, tokenThreadAlive: bool, threadFails: bool)

  /** What one round of the loop brings: a signal, or an error of the bus. */
  datatype Arrival = Arrives(signal: Signal, env: Env) | BusError

  datatype State = State(curType: Flag, result: Result, calls: seq<Call>)

  // ---------- the steps on values ----------

  function FirstIndex(walk: seq<Flag>, f: Flag): (i: nat)
    ensures i <= |walk| && (i < |walk| ==> walk[i] == f) && forall j | 0 <= j < i :: walk[j] != f
  {
    if walk == [] then 0
    else
      var i := FirstIndex(walk[..|walk| - 1], f);
      if i < |walk| - 1 || walk[|walk| - 1] == f then i else |walk|
  }

  /** mfa_start_verify, with the result already folded into the state. */
  function AfterStart(walk: seq<Flag>, s: State, index: nat, startFails: bool): State {
    if index < |walk| then
      State(walk[index], if startFails then PamAbort else Undecided, s.calls + [Start(walk[index])])
    else s.(result := PamAbort)
  }

  /** mfa_signal_deal. */
  function AfterSignal(walk: seq<Flag>, s: State, m: Signal, env: Env): State {
    if m.code == CODE_SUCCESS then
      if m.flag == FLAG_ALL then s.(result := PamSuccess)
      else if m.flag != s.curType then s.(result := Undecided)
      else
        var idx := FirstIndex(walk, s.curType);
        if idx == |walk| then s.(result := PamAbort)
        else if idx == |walk| - 1 then s.(result := Undecided)
        else AfterStart(walk, s.(calls := s.calls + [End(m.flag)]), idx + 1, env.startFails)
    else if m.code == CODE_FAILURE && m.flag != FLAG_ALL then s.(result := PamAuthErr)
    else if m.code == CODE_PROMPT && m.flag == s.curType && m.flag != FLAG_ALL
        && (env.tokenThreadAlive || env.threadFails) then
      s.(result := PamAbort)
    else s.(result := Undecided)
  }

  function AfterArrival(walk: seq<Flag>, s: State, a: Arrival): State {
    match a
    case Arrives(m, env) => AfterSignal(walk, s, m, env)
    case BusError => s.(result := PamAbort)
  }

  /** What the client meets before its loop: a locked password, a subscription or a first start that fails. */
  datatype Entry = Entry(locked: bool, listenFails: bool, startFails: bool)

  const SMOOTH := Entry(false, false, false)

  /** The client before the loop: unless it gives up, it starts the first factor on the walk. */
  function Begin(walk: seq<Flag>, initial: Flag, entry: Entry): State {
    if entry.locked then State(initial, PamMaxTries, [])
    else if entry.listenFails then State(initial, PamAbort, [])
    else AfterStart(walk, State(initial, Undecided, []), 0, entry.startFails)
  }

  /** The loop: what arrives is handled while no result is in sight. */
  function Run(walk: seq<Flag>, s: State, arrivals: seq<Arrival>): State {
    if arrivals == [] then s
    else
      var before := Run(walk, s, arrivals[..|arrivals| - 1]);
      if before.result.Undecided? then AfterArrival(walk, before, arrivals[|arrivals| - 1]) else before
  }

  /** The whole attempt. */
  function Attempt(walk: seq<Flag>, initial: Flag, entry: Entry, arrivals: seq<Arrival>): State {
    Run(walk, Begin(walk, initial, entry), arrivals)
  }

  // ---------- the client as it is ----------

  class Client {
    const factors: seq<AuthFactor>
    const factorOrder: seq<int>
    var curType: Flag
    var result: Result
    var calls: seq<Call>

    ghost predicate Valid() {
      IsPermutation(factorOrder, |factors|)
    }

    ghost function View(): State
      reads this
    {
      State(curType, result, calls)
    }

    ghost function Route(): seq<Flag>
      requires Valid()
    {
      Walk(factors, factorOrder)
    }

    constructor (factors: seq<AuthFactor>, initial: Flag)
      ensures Valid() && this.factors == factors && ByPriority(factors, factorOrder)
      ensures View() == State(initial, Undecided, [])
    {
      var order := ResolveOrder(factors);
      this.factors, factorOrder := factors, order[..];
      curType, result, calls := initial, Undecided, [];
    }

    method StartVerify(index: nat, startFails: bool) returns (ret: Result)
      requires Valid() && result.Undecided?
      modifies this`curType, this`calls
      ensures ret.PamSuccess? || ret.PamAbort?
      ensures View().(result := if ret.PamSuccess? then Undecided else PamAbort)
              == AfterStart(Route(), old(View()), index, startFails)
    {
      if |factors| > 0 && index < |factors| {
        var idx := factorOrder[index];
        curType := factors[idx].authType;
        calls := calls + [Start(curType)];
        if startFails {
          return PamAbort;
        }
      } else {
        return PamAbort;
      }
      return PamSuccess;
    }

    /** The place of the current factor in the order, or the number of factors. */
    method FindCurrent() returns (idx: nat)
      requires Valid()
      ensures idx == FirstIndex(Route(), curType) && idx <= |factors| == |Route()|
    {
      idx := 0;
      while idx < |factors| && factors[factorOrder[idx]].authType != curType
        invariant idx <= |factors|
        invariant forall j | 0 <= j < idx :: Route()[j] != curType
      {
        idx := idx + 1;
      }
    }

    /** The current factor has succeeded: the next one on the order is started, if there is one. */
    method StartNext(flag: Flag, env: Env) returns (ret: Result)
      requires Valid() && result.Undecided? && flag == curType && flag != FLAG_ALL
      modifies this`curType, this`calls
      ensures View().(result := ret) == AfterSignal(Route(), old(View()), Signal(flag, CODE_SUCCESS), env)
    {
      var idx := FindCurrent();
      if idx == |factors| {
        return PamAbort;
      }
      if idx == |factors| - 1 {
        return Undecided;
      }
      calls := calls + [End(flag)];
      var r := StartVerify(idx + 1, env.startFails);
      ret := if r != PamSuccess then r else Undecided;
    }

    method Deal(m: Signal, env: Env) returns (ret: Result)
      requires Valid() && result.Undecided?
      modifies this`curType, this`calls
      ensures View().(result := ret) == AfterSignal(Route(), old(View()), m, env)
    {
      ret := Undecided;
      if m.code == CODE_SUCCESS {
        if m.flag != FLAG_ALL {
          if m.flag == curType {
            ret := StartNext(m.flag, env);
          }
        } else {
          ret := PamSuccess;
        }
      } else if m.code == CODE_FAILURE {
        if m.flag != FLAG_ALL {
          ret := PamAuthErr;
        }
      } else if m.code == CODE_PROMPT {
        if m.flag == curType && m.flag != FLAG_ALL {
          if env.tokenThreadAlive {
            return PamAbort;
          }
          if env.threadFails {
            return PamAbort;
          }
        }
      }
    }

    /** What comes before the loop: the look at the limit, the subscription and the first start. */
    method Enter(entry: Entry)
      requires Valid() && result.Undecided? && calls == []
      modifies this
      ensures View() == Begin(Route(), old(curType), entry)
    {
      if entry.locked {
        result := PamMaxTries;
        return;
      }
      if entry.listenFails {
        result := PamAbort;
        return;
      }
      var ret := StartVerify(0, entry.startFails);
      if ret != PamSuccess {
        result := PamAbort;
      }
    }

    method Authenticate(entry: Entry, arrivals: seq<Arrival>)
      requires Valid() && result.Undecided? && calls == []
      modifies this
      ensures View() == Attempt(Route(), old(curType), entry, arrivals)
      ensures result.PamSuccess? ==>
                entry == Entry(false, false, false)
                && exists a | a in arrivals :: a.Arrives? && a.signal == Signal(FLAG_ALL, 0)
      ensures entry.locked ==> result.PamMaxTries? && calls == []
      ensures !entry.locked && (entry.listenFails || entry.startFails) ==> result.PamAbort?
    {
      ghost var start := Begin(Route(), curType, entry);
      AttemptSucceedsOnly(Route(), curType, entry, arrivals);
      AttemptEndsEarly(Route(), curType, entry, arrivals);
      Enter(entry);
      for i := 0 to |arrivals|
        invariant View() == Run(Route(), start, arrivals[..i])
      {
        assert arrivals[..i + 1][..i] == arrivals[..i];
        if result == Undecided {
          match arrivals[i] {
            case Arrives(m, env) => result := Deal(m, env);
            case BusError => result := PamAbort;
          }
        }
      }
      assert arrivals[..|arrivals|] == arrivals;
    }
  }

  // ---------- how an attempt ends ----------

  lemma {:induction false} DecidedStays(walk: seq<Flag>, s: State, arrivals: seq<Arrival>)
    requires !s.result.Undecided?
    ensures Run(walk, s, arrivals) == s
  {
    if arrivals != [] {
      DecidedStays(walk, s, arrivals[..|arrivals| - 1]);
    }
  }

  lemma {:induction false} SuccessComesOfAggregate(walk: seq<Flag>, s: State, arrivals: seq<Arrival>)
    requires s.result.Undecided? && Run(walk, s, arrivals).result.PamSuccess?
    ensures exists a | a in arrivals :: a.Arrives? && a.signal == Signal(FLAG_ALL, 0)
  {
    var init, last := arrivals[..|arrivals| - 1], arrivals[|arrivals| - 1];
    assert arrivals == init + [last];
    if Run(walk, s, init).result.Undecided? {
      assert last in arrivals;
    } else {
      SuccessComesOfAggregate(walk, s, init);
      var a :| a in init && a.Arrives? && a.signal == Signal(FLAG_ALL, 0);
      assert a in arrivals;
    }
  }

  /**
    An attempt lets the user in only if the password is not locked, neither the subscription
    nor the first start fails, and an aggregate success arrives.
   */
  lemma AttemptSucceedsOnly(walk: seq<Flag>, initial: Flag, entry: Entry, arrivals: seq<Arrival>)
    ensures Attempt(walk, initial, entry, arrivals).result.PamSuccess? ==>
              entry == Entry(false, false, false) && walk != []
              && exists a | a in arrivals :: a.Arrives? && a.signal == Signal(FLAG_ALL, 0)
  {
    var start := Begin(walk, initial, entry);
    if !start.result.Undecided? {
      DecidedStays(walk, start, arrivals);
    } else if Attempt(walk, initial, entry, arrivals).result.PamSuccess? {
      SuccessComesOfAggregate(walk, start, arrivals);
    }
  }

  /** A locked attempt ends in MAXTRIES without a call; one that cannot subscribe or start aborts. */
  lemma AttemptEndsEarly(walk: seq<Flag>, initial: Flag, entry: Entry, arrivals: seq<Arrival>)
    ensures var s := Attempt(walk, initial, entry, arrivals);
            && (entry.locked ==> s.result.PamMaxTries? && s.calls == [])
            && (!entry.locked && (entry.listenFails || entry.startFails || walk == []) ==> s.result.PamAbort?)
            && (!entry.locked && !entry.listenFails && entry.startFails && walk != [] ==> s.calls == [Start(walk[0])])
            && (!entry.locked && entry.listenFails ==> s.calls == [])
  {
    var start := Begin(walk, initial, entry);
    if !start.result.Undecided? {
      DecidedStays(walk, start, arrivals);
    }
  }

  /** An error of the bus ends an attempt that has no result yet, whatever would have come after it. */
  lemma {:induction false} BusErrorAborts(walk: seq<Flag>, start: State, before: seq<Arrival>, after: seq<Arrival>)
    requires Run(walk, start, before).result.Undecided?
    ensures Run(walk, start, before + [BusError] + after).result.PamAbort?
  {
    var all := before + [BusError] + after;
    if after != [] {
      BusErrorAborts(walk, start, before, after[..|after| - 1]);
      assert all[..|all| - 1] == before + [BusError] + after[..|after| - 1];
    } else {
      assert all[..|all| - 1] == before && all[|all| - 1] == BusError;
    }
  }

  /**
    While it stands at factor n - 1 of the walk, one signal makes the client abort exactly if
    it asks for the input of that factor and the thread that reads it still runs or cannot be
    started, or if it is the success of that factor and the next one cannot be started.
   */
  lemma {:induction false} SignalAbortsExactly(walk: seq<Flag>, s: State, m: Signal, env: Env, n: nat)
    requires Distinct(walk) && At(walk, s, n) && s.result.Undecided? && walk[n - 1] != FLAG_ALL
    ensures AfterSignal(walk, s, m, env).result.PamAbort? <==>
            m.flag == walk[n - 1]
            && ((m.code == 7 && (env.tokenThreadAlive || env.threadFails))
                || (m.code == 0 && n < |walk| && env.startFails))
    ensures AfterSignal(walk, s, m, env).result.PamSuccess? <==> m == Signal(FLAG_ALL, 0)
    ensures AfterSignal(walk, s, m, env).result.PamAuthErr? <==> m.flag != FLAG_ALL && m.code == 1
    ensures !AfterSignal(walk, s, m, env).result.PamMaxTries?
  {
    assert walk[n - 1] == s.curType;
    assert FirstIndex(walk, s.curType) == n - 1;
  }

  // ---------- the walk ----------

  /** The calls of a client that has started the first n factors, each ended before the next. */
  function CallLog(walk: seq<Flag>, n: nat): seq<Call>
    requires n <= |walk|
  {
    if n == 0 then []
    else if n == 1 then [Start(walk[0])]
    else CallLog(walk, n - 1) + [End(walk[n - 2]), Start(walk[n - 1])]
  }

  /** The client stands at factor n - 1 of the walk and has gone through those before it. */
  ghost predicate At(walk: seq<Flag>, s: State, n: nat) {
    1 <= n <= |walk| && s.curType == walk[n - 1] && s.calls == CallLog(walk, n)
  }

  ghost predicate OnWalk(walk: seq<Flag>, s: State) {
    exists n :: At(walk, s, n)
  }

  lemma {:induction false} DealStaysOnWalk(walk: seq<Flag>, s: State, m: Signal, env: Env, n: nat)
    requires Distinct(walk) && At(walk, s, n)
    ensures At(walk, AfterSignal(walk, s, m, env), n)
            || (n < |walk| && At(walk, AfterSignal(walk, s, m, env), n + 1)
                && m == Signal(walk[n - 1], CODE_SUCCESS) && walk[n - 1] != FLAG_ALL)
  {
    var idx := FirstIndex(walk, s.curType);
    assert walk[n - 1] == s.curType;
    assert idx == n - 1;
    if n < |walk| {
      assert s.calls + [End(walk[n - 1])] + [Start(walk[n])] == CallLog(walk, n + 1);
    }
  }

  /**
    Whatever signals arrive in whatever order, a client whose factors are all different
    starts them along the walk: each at most once, in the order of the walk, and each one
    ended before the next is started.
   */
  lemma {:induction false} ClientFollowsWalk(walk: seq<Flag>, initial: Flag, entry: Entry, arrivals: seq<Arrival>)
    requires Distinct(walk) && walk != []
    ensures var s := Run(walk, Begin(walk, initial, entry), arrivals);
            if entry.locked || entry.listenFails then s.calls == [] else OnWalk(walk, s)
  {
    if entry.locked || entry.listenFails {
      DecidedStays(walk, Begin(walk, initial, entry), arrivals);
    } else if arrivals == [] {
      assert At(walk, Begin(walk, initial, entry), 1);
    } else {
      var init, last := arrivals[..|arrivals| - 1], arrivals[|arrivals| - 1];
      ClientFollowsWalk(walk, initial, entry, init);
      var before := Run(walk, Begin(walk, initial, entry), init);
      var n :| At(walk, before, n);
      if before.result.Undecided? {
        if last.Arrives? {
          DealStaysOnWalk(walk, before, last.signal, last.env, n);
        } else {
          assert At(walk, before.(result := PamAbort), n);
        }
      }
    }
  }

  function StartsOf(calls: seq<Call>): seq<Flag> {
    if calls == [] then []
    else StartsOf(calls[..|calls| - 1]) + if calls[|calls| - 1].Start? then [calls[|calls| - 1].flag] else []
  }

  lemma StartsAppend(calls: seq<Call>, c: Call)
    ensures StartsOf(calls + [c]) == StartsOf(calls) + if c.Start? then [c.flag] else []
  {
    assert (calls + [c])[..|calls|] == calls;
  }

  lemma StartsOfOne(f: Flag)
    ensures StartsOf([Start(f)]) == [f]
  {
    StartsAppend([], Start(f));
    assert [] + [Start(f)] == [Start(f)];
  }

  lemma StartsOfNext(log: seq<Call>, f: Flag, g: Flag)
    ensures StartsOf(log + [End(f), Start(g)]) == StartsOf(log) + [g]
  {
    StartsAppend(log, End(f));
    StartsAppend(log + [End(f)], Start(g));
    assert log + [End(f)] + [Start(g)] == log + [End(f), Start(g)];
  }

  lemma {:induction false} StartsOfLog(walk: seq<Flag>, n: nat)
    requires n <= |walk|
    ensures StartsOf(CallLog(walk, n)) == walk[..n]
  {
    if n > 1 {
      StartsOfLog(walk, n - 1);
      StartsOfNext(CallLog(walk, n - 1), walk[n - 2], walk[n - 1]);
      assert walk[..n - 1] + [walk[n - 1]] == walk[..n];
    } else if n == 1 {
      StartsOfOne(walk[0]);
    }
  }

  /** The search for a factor before or at the repeated place ends before that place. */
  lemma {:induction false} SearchFindsEarlier(walk: seq<Flag>, i: nat, j: nat, p: nat)
    requires i < j < |walk| && walk[i] == walk[j] && Distinct(walk[..j]) && p <= j
    ensures FirstIndex(walk, walk[p]) < j
  {
    var idx := FirstIndex(walk, walk[p]);
    assert walk[if p < j then p else i] == walk[p];
  }

  lemma {:induction false} TellSuccess(walk: seq<Flag>, s: State, env: Env)
    requires s.curType != FLAG_ALL && FirstIndex(walk, s.curType) < |walk| - 1 && !env.startFails
    ensures var next := walk[FirstIndex(walk, s.curType) + 1];
            && AfterSignal(walk, s, Signal(s.curType, CODE_SUCCESS), env).result.Undecided?
            && AfterSignal(walk, s, Signal(s.curType, CODE_SUCCESS), env).curType == next
            && StartsOf(AfterSignal(walk, s, Signal(s.curType, CODE_SUCCESS), env).calls) == StartsOf(s.calls) + [next]
  {
    var next := walk[FirstIndex(walk, s.curType) + 1];
    StartsOfNext(s.calls, s.curType, next);
    assert s.calls + [End(s.curType)] + [Start(next)] == s.calls + [End(s.curType), Start(next)];
  }

  lemma RunStep(walk: seq<Flag>, start: State, arrivals: seq<Arrival>, a: Arrival)
    requires Run(walk, start, arrivals).result.Undecided?
    ensures Run(walk, start, arrivals + [a]) == AfterArrival(walk, Run(walk, start, arrivals), a)
  {
    assert (arrivals + [a])[..|arrivals|] == arrivals;
  }

  lemma OneMoreStart(walk: seq<Flag>, start: State, before: seq<Arrival>, q: nat)
    returns (arrivals: seq<Arrival>, p: nat)
    requires q < |walk| && walk[q] != FLAG_ALL && FirstIndex(walk, walk[q]) < |walk| - 1
    requires var s := Run(walk, start, before); s.result.Undecided? && s.curType == walk[q]
    ensures p == FirstIndex(walk, walk[q]) + 1
    ensures var s := Run(walk, start, arrivals);
            && s.result.Undecided? && s.curType == walk[p]
            && |StartsOf(s.calls)| == |StartsOf(Run(walk, start, before).calls)| + 1
  {
    var a := Arrives(Signal(walk[q], CODE_SUCCESS), Env(false, false, false));
    TellSuccess(walk, Run(walk, start, before), a.env);
    RunStep(walk, start, before, a);
    arrivals, p := before + [a], FirstIndex(walk, walk[q]) + 1;
  }

  /**
    The guard is exact: as soon as two places of the walk carry the same type the search for
    the current factor finds the first of them, and a client that keeps being told of
    success starts factors without end.
   */
  lemma {:induction false} RepeatedTypeNeverEnds(walk: seq<Flag>, i: nat, j: nat, n: nat)
    returns (arrivals: seq<Arrival>, p: nat)
    requires i < j < |walk| && walk[i] == walk[j] && Distinct(walk[..j])
    requires forall f | f in walk :: f != FLAG_ALL
    ensures p <= j
    ensures var s := Run(walk, Begin(walk, walk[0], SMOOTH), arrivals);
            && s.result.Undecided? && s.curType == walk[p] && |StartsOf(s.calls)| == n + 1
  {
    if n > 0 {
      var before, q := RepeatedTypeNeverEnds(walk, i, j, n - 1);
      SearchFindsEarlier(walk, i, j, q);
      assert walk[q] in walk;
      arrivals, p := OneMoreStart(walk, Begin(walk, walk[0], SMOOTH), before, q);
    } else {
      arrivals, p := [], 0;
      StartsOfOne(walk[0]);
      assert [] + [Start(walk[0])] == [Start(walk[0])];
    }
  }

  lemma FirstRepeat(walk: seq<Flag>) returns (i: nat, j: nat)
    requires !Distinct(walk)
    ensures i < j < |walk| && walk[i] == walk[j] && Distinct(walk[..j])
  {
    if Distinct(walk[..|walk| - 1]) {
      var init := walk[..|walk| - 1];
      assert forall k | 0 <= k < |init| :: init[k] == walk[k];
      var a, b :| 0 <= a < b < |walk| && walk[a] == walk[b];
      i, j := a, b;
    } else {
      i, j := FirstRepeat(walk[..|walk| - 1]);
      assert walk[..|walk| - 1][..j] == walk[..j];
    }
  }

  /** What has been started is at every moment a prefix of the walk. */
  lemma {:induction false} StartsArePrefix(walk: seq<Flag>, initial: Flag, entry: Entry, arrivals: seq<Arrival>)
    returns (n: nat)
    requires Distinct(walk)
    ensures n <= |walk|
    ensures StartsOf(Run(walk, Begin(walk, initial, entry), arrivals).calls) == walk[..n]
  {
    if walk == [] || entry.locked || entry.listenFails {
      n := 0;
      DecidedStays(walk, Begin(walk, initial, entry), arrivals);
    } else {
      ClientFollowsWalk(walk, initial, entry, arrivals);
      n :| At(walk, Run(walk, Begin(walk, initial, entry), arrivals), n);
      StartsOfLog(walk, n);
    }
  }

  /** No more starts than factors on any run, exactly when the types are all different. */
  lemma {:induction false} StartsBoundedExactly(walk: seq<Flag>)
    requires walk != [] && forall f | f in walk :: f != FLAG_ALL
    ensures (forall arrivals: seq<Arrival> ::
               |StartsOf(Run(walk, Begin(walk, walk[0], SMOOTH), arrivals).calls)| <= |walk|)
            <==> Distinct(walk)
  {
    if Distinct(walk) {
      forall arrivals: seq<Arrival>
        ensures |StartsOf(Run(walk, Begin(walk, walk[0], SMOOTH), arrivals).calls)| <= |walk|
      {
        var n := StartsArePrefix(walk, walk[0], SMOOTH, arrivals);
      }
    } else {
      var i, j := FirstRepeat(walk);
      var arrivals, p := RepeatedTypeNeverEnds(walk, i, j, |walk|);
    }
  }

  /** The factors are started in non-increasing priority, each at most once. */
  lemma {:induction false} StartsByPriority(
      factors: seq<AuthFactor>, order: seq<int>, initial: Flag, entry: Entry, arrivals: seq<Arrival>)
    returns (n: nat)
    requires ByPriority(factors, order)
    requires forall i, j | 0 <= i < j < |factors| :: factors[i].authType != factors[j].authType
    ensures var walk := Walk(factors, order);
            var starts := StartsOf(Run(walk, Begin(walk, initial, entry), arrivals).calls);
            && n <= |factors| && starts == walk[..n] && Distinct(starts)
            && (forall i | 0 <= i < n :: starts[i] == factors[order[i]].authType)
            && (forall i, j | 0 <= i <= j < n :: factors[order[i]].priority >= factors[order[j]].priority)
  {
    var walk := Walk(factors, order);
    WalkVisitsEachFactor(factors, order);
    n := StartsArePrefix(walk, initial, entry, arrivals);
  }

  // ---------- what decides the client ----------

  /** The aggregate success, and the failure of a factor. */
  predicate Decides(m: Signal) {
    (m.flag == FLAG_ALL && m.code == CODE_SUCCESS) || (m.flag != FLAG_ALL && m.code == CODE_FAILURE)
  }

  /** An aggregate verdict decides the client exactly when it is success: a failure leaves it waiting. */
  lemma AggregateDecidesExactly(walk: seq<Flag>, s: State, m: Signal, env: Env)
    requires m.flag == FLAG_ALL
    ensures AfterSignal(walk, s, m, env).result.Undecided? <==> m.code != CODE_SUCCESS
    ensures AfterSignal(walk, s, m, env).calls == s.calls
  {
  }

  /** Nothing fails around the client. */
  predicate Calm(a: Arrival) {
    a.Arrives? && a.env == Env(false, false, false)
  }

  function SignalsOf(arrivals: seq<Arrival>): seq<Signal> {
    if arrivals == [] then []
    else
      var last := arrivals[|arrivals| - 1];
      SignalsOf(arrivals[..|arrivals| - 1]) + if last.Arrives? then [last.signal] else []
  }

  /** The first signal that decides. */
  function DecidedBy(signals: seq<Signal>): (d: Option<Signal>)
    ensures d.Some? ==> d.value in signals && Decides(d.value)
    ensures d.None? ==> forall m | m in signals :: !Decides(m)
  {
    if signals == [] then None
    else
      var before, last := DecidedBy(signals[..|signals| - 1]), signals[|signals| - 1];
      assert signals == signals[..|signals| - 1] + [last];
      if before.Some? then before else if Decides(last) then Some(last) else None
  }

  function Outcome(d: Option<Signal>): Result {
    if d.None? then Undecided else if d.value.code == CODE_SUCCESS then PamSuccess else PamAuthErr
  }

  lemma {:induction false} CalmSignalDecides(walk: seq<Flag>, s: State, a: Arrival, n: nat)
    requires Distinct(walk) && At(walk, s, n) && Calm(a)
    ensures AfterArrival(walk, s, a).result == if Decides(a.signal) then Outcome(Some(a.signal)) else Undecided
  {
    assert walk[n - 1] == s.curType;
    assert FirstIndex(walk, s.curType) == n - 1;
  }

  lemma DecidedByStep(signals: seq<Signal>, m: Signal)
    ensures DecidedBy(signals + [m])
            == if DecidedBy(signals).Some? then DecidedBy(signals) else if Decides(m) then Some(m) else None
  {
    assert (signals + [m])[..|signals|] == signals;
  }

  /**
    While nothing fails around it, the client ends with what the first signal says that is the
    aggregate success or the failure of a factor, and waits until one of them arrives.
   */
  lemma {:induction false} ClientDecidesExactly(walk: seq<Flag>, initial: Flag, arrivals: seq<Arrival>)
    requires Distinct(walk) && walk != [] && forall a | a in arrivals :: Calm(a)
    ensures Run(walk, Begin(walk, initial, SMOOTH), arrivals).result == Outcome(DecidedBy(SignalsOf(arrivals)))
  {
    if arrivals != [] {
      var init, last := arrivals[..|arrivals| - 1], arrivals[|arrivals| - 1];
      assert arrivals == init + [last];
      ClientDecidesExactly(walk, initial, init);
      ClientFollowsWalk(walk, initial, SMOOTH, init);
      var n :| At(walk, Run(walk, Begin(walk, initial, SMOOTH), init), n);
      CalmSignalDecides(walk, Run(walk, Begin(walk, initial, SMOOTH), init), last, n);
      DecidedByStep(SignalsOf(init), last.signal);
    }
  }

  lemma {:induction false} SignalsOfArrivals(arrivals: seq<Arrival>)
    ensures (forall a | a in arrivals :: a.Arrives? ==> !Decides(a.signal))
            <==> forall m | m in SignalsOf(arrivals) :: !Decides(m)
  {
    if arrivals != [] {
      assert arrivals == arrivals[..|arrivals| - 1] + [arrivals[|arrivals| - 1]];
      SignalsOfArrivals(arrivals[..|arrivals| - 1]);
    }
  }

  /**
    While nothing fails around it, a client still waits after any stream of signals exactly
    when neither the aggregate success nor the failure of a factor has arrived.
   */
  lemma {:induction false} ClientWaitsExactly(walk: seq<Flag>, initial: Flag, arrivals: seq<Arrival>)
    requires Distinct(walk) && walk != [] && forall a | a in arrivals :: Calm(a)
    ensures Run(walk, Begin(walk, initial, SMOOTH), arrivals).result.Undecided?
            <==> forall a | a in arrivals :: a.Arrives? ==> !Decides(a.signal)
  {
    ClientDecidesExactly(walk, initial, arrivals);
    SignalsOfArrivals(arrivals);
  }
}
