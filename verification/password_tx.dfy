/**
  Password attempts (service/authenticate/session/password_tx.go). Every start of an attempt
  runs a PAM worker of its own that reports when it pleases, possibly long after the attempt
  was ended or another one started; a session id tells the late reports from the current ones.

  The steps are as fine as the code leaves them. A start takes an id under a lock; outside
  the lock it creates a session object and stores it, starts whatever session is stored by
  then with the id it reads back, and launches a worker on whatever session is stored by then.
  An end first gives the status Ended and then invalidates the id.
 */
module PasswordAttempts {
  import opened AuthTypes
  import opened Collections

  /** A worker reports under the id its session object has at that moment. */
  datatype Worker = Worker(session: nat, done: bool)

  /** A status handed on to the session, and the worker it came from. */
  datatype Entry = Entry(worker: nat, status: Status)

  /**
    sessions holds the id of every session object, 0 before it is started; current is the one
    stored. taken, created and started count the starts that have got so far.
   */
  datatype System = System(
    sessionId: int,
    nextSessionId: nat,
    sessions: seq<int>,
    current: Option<nat>,
    taken: nat,
    created: nat,
    started: nat,
    ending: nat,
    workers: seq<Worker>,
    given: seq<Entry>,
    panicked: bool)

  datatype Action =
    | TakeId
    | Create
    | StartPam(fails: bool)
    | Launch
    | Prompts(worker: nat)
    | Finishes(worker: nat, passed: bool)
    | TellEnded
    | Invalidate

  const IDLE := System(0, 0, [], None, 0, 0, 0, 0, [], [], false)

  ghost predicate Sensible(s: System) {
    && (s.current.Some? ==> s.current.value < |s.sessions|)
    && (s.created + s.started > 0 ==> s.current.Some?)
    && (forall i | 0 <= i < |s.sessions| :: 0 <= s.sessions[i] <= s.nextSessionId)
    && (s.taken + s.created + s.started > 0 ==> s.nextSessionId > 0)
    && (forall w | 0 <= w < |s.workers| ::
          s.workers[w].session < |s.sessions| && s.sessions[s.workers[w].session] > 0)
  }

  function IdOf(s: System, w: nat): int
    requires w < |s.workers|
  {
    if s.workers[w].session < |s.sessions| then s.sessions[s.workers[w].session] else 0
  }

  function Give(s: System, w: nat, status: Status): System
    requires w < |s.workers|
  {
    if IdOf(s, w) == s.sessionId then s.(given := s.given + [Entry(w, status)]) else s
  }

  function AddWorker(s: System, c: nat): System
    requires s.started > 0
  {
    s.(started := s.started - 1, workers := s.workers + [Worker(c, false)])
  }

  /** A session that nobody has started yet has nobody to report to: launching on it panics. */
  function LaunchOn(s: System, c: nat): System
    requires c < |s.sessions| && s.started > 0
  {
    if s.sessions[c] == 0 then s.(panicked := true)
    else Give(AddWorker(s, c), |s.workers|, Started)
  }

  /**
    A step that is not possible in the state leaves it as it is. Ending a session that nobody
    has started yet closes a channel that is not there, which panics as well.
   */
  function Step(s: System, a: Action): System {
    if s.panicked then s
    else match a
      case TakeId => s.(nextSessionId := s.nextSessionId + 1, sessionId := s.nextSessionId + 1, taken := s.taken + 1)
      case Create =>
        if s.taken == 0 then s
        else
          s.(sessions := s.sessions + [0], current := Some(|s.sessions|),
             taken := s.taken - 1, created := s.created + 1)
      case StartPam(fails) =>
        if s.created == 0 || s.current.None? || s.current.value >= |s.sessions| then s
        else
          s.(sessions := s.sessions[s.current.value := s.nextSessionId],
             created := s.created - 1, started := s.started + if fails then 0 else 1)
      case Launch =>
        if s.started == 0 || s.current.None? || s.current.value >= |s.sessions| then s
        else LaunchOn(s, s.current.value)
      case Prompts(w) =>
        if w < |s.workers| && !s.workers[w].done then Give(s, w, Prompt) else s
      case Finishes(w, passed) =>
        if w < |s.workers| && !s.workers[w].done then
          Give(s.(workers := s.workers[w := s.workers[w].(done := true)]), w, if passed then Success else Failure)
        else s
      case TellEnded =>
        if s.current.Some? && s.current.value < |s.sessions| && s.sessions[s.current.value] == 0
        then s.(panicked := true)
        else s.(ending := s.ending + 1)
      case Invalidate => if s.ending == 0 then s else s.(sessionId := -1, ending := s.ending - 1)
  }

  function Reached(actions: seq<Action>): System {
    if actions == [] then IDLE else Step(Reached(actions[..|actions| - 1]), actions[|actions| - 1])
  }

  lemma ReachedStep(actions: seq<Action>, a: Action)
    ensures Reached(actions + [a]) == Step(Reached(actions), a)
  {
    assert (actions + [a])[..|actions|] == actions;
  }

  lemma LastStep(run: seq<Action>, more: seq<Action>)
    requires more != []
    ensures Reached(run + more) == Step(Reached(run + more[..|more| - 1]), more[|more| - 1])
  {
    assert (run + more)[..|run + more| - 1] == run + more[..|more| - 1];
  }

  lemma StepKeepsSensible(s: System, a: Action)
    requires Sensible(s)
    ensures Sensible(Step(s, a))
  {
  }

  // ---------- the id filter ----------

  /** The ids handed out so far, one per start. */
  function CountStarts(actions: seq<Action>): nat {
    if actions == [] then 0
    else CountStarts(actions[..|actions| - 1]) + if actions[|actions| - 1].TakeId? then 1 else 0
  }

  /** An attempt has been started and not been ended since. */
  predicate Open(actions: seq<Action>) {
    actions != [] &&
    var init, last := actions[..|actions| - 1], actions[|actions| - 1];
    last.TakeId? || (Open(init) && !(last.Invalidate? && Reached(init).ending > 0))
  }

  lemma StepIds(s: System, a: Action)
    requires !Step(s, a).panicked
    ensures var t := Step(s, a);
            && !s.panicked
            && t.nextSessionId == s.nextSessionId + (if a.TakeId? then 1 else 0)
            && t.sessionId == if a.TakeId? then t.nextSessionId
                              else if a.Invalidate? && s.ending > 0 then -1 else s.sessionId
  {
  }

  lemma {:induction false} SensibleAlways(actions: seq<Action>)
    ensures Sensible(Reached(actions))
  {
    if actions != [] {
      SensibleAlways(actions[..|actions| - 1]);
      StepKeepsSensible(Reached(actions[..|actions| - 1]), actions[|actions| - 1]);
    }
  }

  /** Ids count the starts, and the current one is positive exactly while an attempt is open. */
  lemma {:induction false} IdsFollowHistory(actions: seq<Action>)
    requires !Reached(actions).panicked
    ensures var s := Reached(actions);
            && s.nextSessionId == CountStarts(actions)
            && (Open(actions) ==> s.sessionId == s.nextSessionId > 0)
            && (!Open(actions) ==> s.sessionId <= 0)
  {
    if actions != [] {
      var init, last := actions[..|actions| - 1], actions[|actions| - 1];
      StepIds(Reached(init), last);
      IdsFollowHistory(init);
    }
  }

  /**
    A worker that finishes is heard exactly when its session carries the id of the most recent
    start and no end has been completed since that start.
   */
  lemma FinalHeardExactly(actions: seq<Action>, w: nat, passed: bool)
    requires var s := Reached(actions); !s.panicked && w < |s.workers| && !s.workers[w].done
    ensures var s, t := Reached(actions), Reached(actions + [Finishes(w, passed)]);
            t.given == if Open(actions) && IdOf(s, w) == CountStarts(actions)
                       then s.given + [Entry(w, if passed then Success else Failure)]
                       else s.given
  {
    IdsFollowHistory(actions);
    SensibleAlways(actions);
    ReachedStep(actions, Finishes(w, passed));
  }

  /** A prompt of a worker is handed on under the same condition. */
  lemma PromptHeardExactly(actions: seq<Action>, w: nat)
    requires var s := Reached(actions); !s.panicked && w < |s.workers| && !s.workers[w].done
    ensures Reached(actions + [Prompts(w)]).given ==
            if Open(actions) && IdOf(Reached(actions), w) == CountStarts(actions)
            then Reached(actions).given + [Entry(w, Prompt)] else Reached(actions).given
  {
    IdsFollowHistory(actions);
    SensibleAlways(actions);
    ReachedStep(actions, Prompts(w));
  }

  lemma SilentStep(s: System, a: Action)
    requires Sensible(s) && s.sessionId <= 0 && !a.TakeId?
    ensures Sensible(Step(s, a)) && Step(s, a).sessionId <= 0 && Step(s, a).given == s.given
  {
    StepKeepsSensible(s, a);
  }

  /** No attempt is open, and what has been given is given. */
  ghost predicate Silent(s: System, given: seq<Entry>) {
    Sensible(s) && s.sessionId <= 0 && s.given == given
  }

  lemma {:induction false} SilentRun(run: seq<Action>, more: seq<Action>, given: seq<Entry>)
    requires Silent(Reached(run), given) && forall i | 0 <= i < |more| :: !more[i].TakeId?
    ensures Silent(Reached(run + more), given)
  {
    if more != [] {
      var init, last := more[..|more| - 1], more[|more| - 1];
      SilentRun(run, init, given);
      LastStep(run, more);
      SilentStep(Reached(run + init), last);
    } else {
      assert run + more == run;
    }
  }

  lemma InvalidateSilences(actions: seq<Action>)
    requires Reached(actions).ending > 0 && !Reached(actions).panicked
    ensures Silent(Reached(actions + [Invalidate]), Reached(actions).given)
  {
    ReachedStep(actions, Invalidate);
    SensibleAlways(actions);
    StepKeepsSensible(Reached(actions), Invalidate);
  }

  /** Once an end is completed nothing is heard from any worker until the next start. */
  lemma SilentAfterEnd(actions: seq<Action>, more: seq<Action>)
    requires Reached(actions).ending > 0 && !Reached(actions).panicked
    requires forall i | 0 <= i < |more| :: !more[i].TakeId?
    ensures Reached(actions + [Invalidate] + more).given == Reached(actions).given
  {
    InvalidateSilences(actions);
    SilentRun(actions + [Invalidate], more, Reached(actions).given);
  }

  // ---------- one final status per worker ----------

  predicate IsFinal(e: Entry, w: nat) {
    e.worker == w && (e.status.Success? || e.status.Failure?)
  }

  function CountFinals(given: seq<Entry>, w: nat): nat {
    if given == [] then 0
    else CountFinals(given[..|given| - 1], w) + if IsFinal(given[|given| - 1], w) then 1 else 0
  }

  lemma CountFinalsStep(given: seq<Entry>, e: Entry, w: nat)
    ensures CountFinals(given + [e], w) == CountFinals(given, w) + if IsFinal(e, w) then 1 else 0
  {
    assert (given + [e])[..|given|] == given;
  }

  /** A worker that has not finished has given no final status, one that has at most one. */
  ghost predicate FinalsCounted(s: System, w: nat) {
    CountFinals(s.given, w) <= if w < |s.workers| && s.workers[w].done then 1 else 0
  }

  lemma GiveCounts(s: System, v: nat, status: Status, w: nat)
    requires v < |s.workers|
    ensures CountFinals(Give(s, v, status).given, w) <=
            CountFinals(s.given, w) + if IsFinal(Entry(v, status), w) then 1 else 0
    ensures Give(s, v, status).workers == s.workers
  {
    CountFinalsStep(s.given, Entry(v, status), w);
  }

  lemma LaunchCounts(s: System, w: nat)
    requires FinalsCounted(s, w)
    ensures FinalsCounted(Step(s, Launch), w)
  {
    if s.started > 0 && s.current.Some? && s.current.value < |s.sessions| && s.sessions[s.current.value] != 0 {
      GiveCounts(AddWorker(s, s.current.value), |s.workers|, Started, w);
    }
  }

  lemma FinishCounts(s: System, v: nat, passed: bool, w: nat)
    requires FinalsCounted(s, w)
    ensures FinalsCounted(Step(s, Finishes(v, passed)), w)
  {
    if v < |s.workers| && !s.workers[v].done {
      var t := s.(workers := s.workers[v := s.workers[v].(done := true)]);
      GiveCounts(t, v, if passed then Success else Failure, w);
    }
  }

  lemma OthersGiveNothing(s: System, a: Action)
    requires !a.Launch? && !a.Finishes? && !a.Prompts?
    ensures Step(s, a).given == s.given && Step(s, a).workers == s.workers
  {
  }

  lemma StepCounts(s: System, a: Action, w: nat)
    requires FinalsCounted(s, w)
    ensures FinalsCounted(Step(s, a), w)
  {
    match a {
      case Launch => LaunchCounts(s, w);
      case Finishes(v, passed) => FinishCounts(s, v, passed, w);
      case Prompts(v) =>
        if v < |s.workers| {
          GiveCounts(s, v, Prompt, w);
        }
      case _ => OthersGiveNothing(s, a);
    }
  }

  lemma {:induction false} OneFinalPerWorker(actions: seq<Action>, w: nat)
    ensures CountFinals(Reached(actions).given, w) <= 1
    ensures FinalsCounted(Reached(actions), w)
  {
    if actions != [] {
      OneFinalPerWorker(actions[..|actions| - 1], w);
      StepCounts(Reached(actions[..|actions| - 1]), actions[|actions| - 1], w);
    }
  }

  // ---------- between Ended and the invalidation ----------

  /** Between the status Ended and the invalidation a result is still heard. */
  lemma ResultHeardWhileEnding(actions: seq<Action>, w: nat, passed: bool)
    requires Open(actions) && !Reached(actions + [TellEnded]).panicked && w < |Reached(actions).workers|
    requires !Reached(actions).workers[w].done && IdOf(Reached(actions), w) == CountStarts(actions)
    ensures Reached(actions + [TellEnded] + [Finishes(w, passed)]).given
            == Reached(actions).given + [Entry(w, if passed then Success else Failure)]
  {
    ReachedStep(actions, TellEnded);
    assert (actions + [TellEnded])[..|actions|] == actions;
    FinalHeardExactly(actions + [TellEnded], w, passed);
  }

  // ---------- the objects ----------

  /** The id is 0, and nobody hears the session, until it is started. */
  class PamSession {
    var id: nat
    var ended: bool

    constructor ()
      ensures id == 0 && !ended
    {
      id, ended := 0, false;
    }

    method Start(id: nat)
      modifies this`id
      ensures this.id == id
    {
      this.id := id;
    }

    /** Ending twice closes the token channel once. */
    method End() returns (closes: bool)
      modifies this`ended
      ensures ended && closes == !old(ended)
    {
      if ended {
        return false;
      }
      ended := true;
      return true;
    }
  }

  ghost function Ids(made: seq<PamSession>): (ids: seq<int>)
    reads made
    ensures |ids| == |made| && forall i | 0 <= i < |made| :: ids[i] == made[i].id
  {
    seq(|made|, i requires 0 <= i < |made| reads made => made[i].id)
  }

  /** No object has been ended before it was started. */
  ghost predicate EndedWereStarted(made: seq<PamSession>)
    reads made
  {
    forall i | 0 <= i < |made| && made[i].ended :: made[i].id > 0
  }

  ghost predicate NewestOnce(made: seq<PamSession>)
    requires made != []
  {
    forall i | 0 <= i < |made| - 1 :: made[i] != made[|made| - 1]
  }

  lemma CreateIs(s: System)
    requires !s.panicked && s.taken > 0
    ensures Step(s, Create)
            == s.(sessions := s.sessions + [0], current := Some(|s.sessions|),
                  taken := s.taken - 1, created := s.created + 1)
  {
  }

  lemma StartIs(s: System, fails: bool)
    requires !s.panicked && s.created > 0 && s.sessions != [] && s.current == Some(|s.sessions| - 1)
    ensures Step(s, StartPam(fails))
            == s.(sessions := s.sessions[|s.sessions| - 1 := s.nextSessionId],
                  created := s.created - 1, started := if fails then s.started else s.started + 1)
  {
  }

  /** Starting the newest session changes its id alone. */
  method StartNewest(ps: PamSession, id: nat, ghost made: seq<PamSession>)
    requires made != [] && ps == made[|made| - 1] && NewestOnce(made) && id > 0
    modifies ps`id
    ensures ps.id == id && Ids(made) == old(Ids(made))[|made| - 1 := id]
    ensures old(EndedWereStarted(made)) ==> EndedWereStarted(made)
  {
    ps.Start(id);
    assert forall i | 0 <= i < |made| - 1 :: made[i].id == old(made[i].id);
  }

  lemma OneMore(made: seq<PamSession>, ps: PamSession)
    requires ps !in made && !ps.ended
    ensures Ids(made + [ps]) == Ids(made) + [ps.id]
    ensures NewestOnce(made + [ps])
    ensures EndedWereStarted(made) ==> EndedWereStarted(made + [ps])
  {
    assert forall i | 0 <= i < |made| :: made[i] in made;
  }

  method NewSession(ghost made: seq<PamSession>) returns (ps: PamSession)
    ensures fresh(ps) && Ids(made + [ps]) == old(Ids(made)) + [0] && NewestOnce(made + [ps])
    ensures old(EndedWereStarted(made)) ==> EndedWereStarted(made + [ps])
  {
    ps := new PamSession();
    assert Ids(made) == old(Ids(made)) && (EndedWereStarted(made) <==> old(EndedWereStarted(made)));
    OneMore(made, ps);
  }

  /**
    made holds every session object of the run, the stored one last. The other ghost fields
    say how far each start, end and worker has got, which in the code is where its thread is.
   */
  class PasswordTx {
    var sessionId: int
    var nextSessionId: nat
    var session: PamSession?
    var given: seq<Entry>
    ghost var made: seq<PamSession>
    ghost var taken: nat
    ghost var created: nat
    ghost var started: nat
    ghost var ending: nat
    ghost var workers: seq<Worker>
    ghost var panicked: bool

    ghost predicate Valid()
      reads this, made
    {
      && (session == null <==> made == [])
      && (session != null ==> session == made[|made| - 1] && NewestOnce(made))
      && (!panicked ==> EndedWereStarted(made))
      && (taken + created > 0 ==> nextSessionId > 0)
    }

    ghost function View(): System
      reads this, made
    {
      System(sessionId, nextSessionId, Ids(made), if made == [] then None else Some(|made| - 1),
             taken, created, started, ending, workers, given, panicked)
    }

    constructor ()
      ensures Valid() && View() == IDLE
    {
      sessionId, nextSessionId, session, given := 0, 0, null, [];
      made, taken, created, started, ending, workers, panicked := [], 0, 0, 0, 0, [], false;
    }

    method SendStatus(id: int, status: Status, worker: nat)
      modifies this`given
      ensures given == old(given) + if id == sessionId then [Entry(worker, status)] else []
    {
      if id == sessionId {
        given := given + [Entry(worker, status)];
      }
    }

    /** The part of authenticate under the lock. */
    method TakeSessionId()
      requires Valid() && !panicked
      modifies this
      ensures Valid() && View() == Step(old(View()), TakeId)
    {
      nextSessionId := nextSessionId + 1;
      sessionId := nextSessionId;
      taken := taken + 1;
    }

    method StoreNew()
      requires Valid() && !panicked && nextSessionId > 0
      modifies this`session, this`made
      ensures Valid() && fresh(session)
      ensures View() == old(View()).(sessions := old(View()).sessions + [0], current := Some(|old(View()).sessions|))
    {
      var ps := NewSession(made);
      ghost var more := made + [ps];
      session, made := ps, more;
    }

    /** authenticate stores a new session object, whatever is stored. */
    method CreateSession()
      requires Valid() && !panicked && taken > 0
      modifies this
      ensures Valid() && View() == Step(old(View()), Create) && fresh(session)
    {
      CreateIs(View());
      taken, created := taken - 1, created + 1;
      StoreNew();
    }

    /** authenticate starts the session that is stored now, with the id that was taken last. */
    method StartSession(fails: bool)
      requires Valid() && !panicked && created > 0 && session != null
      modifies this, session
      ensures Valid() && View() == Step(old(View()), StartPam(fails))
      ensures session == old(session) && session.ended == old(session.ended)
    {
      ghost var before := View();
      StartIs(before, fails);
      created := created - 1;
      if !fails {
        started := started + 1;
      }
      assert View() == before.(created := created, started := started);
      StartNewest(session, nextSessionId, made);
      assert View() == before.(sessions := Ids(made), created := created, started := started);
    }

    /** authenticate launches a worker on the session that is stored now; worker is its number. */
    method LaunchWorker(worker: nat)
      requires Valid() && !panicked && started > 0 && session != null && worker == |workers|
      modifies this
      ensures Valid() && View() == Step(old(View()), Launch) && session == old(session)
    {
      if session.id == 0 {
        panicked := true;
        return;
      }
      started, workers := started - 1, workers + [Worker(|made| - 1, false)];
      SendStatus(session.id, Started, worker);
    }

    /** doAuth gives its result exactly once, at the end, under the id its session has by then. */
    method DoAuth(ps: PamSession, worker: nat, passed: bool)
      requires Valid() && !panicked && worker < |workers| && !workers[worker].done
      requires workers[worker].session < |made| && made[workers[worker].session] == ps
      modifies this
      ensures Valid() && View() == Step(old(View()), Finishes(worker, passed))
    {
      var status := if passed then Success else Failure;
      workers := workers[worker := workers[worker].(done := true)];
      SendStatus(ps.id, status, worker);
    }

    method RespondPam(ps: PamSession, worker: nat)
      requires Valid() && !panicked && worker < |workers| && !workers[worker].done
      requires workers[worker].session < |made| && made[workers[worker].session] == ps
      modifies this
      ensures Valid() && View() == Step(old(View()), Prompts(worker))
    {
      SendStatus(ps.id, Prompt, worker);
    }

    /** end up to the status Ended, which is given whatever the id. */
    method EndSession() returns (status: Option<Status>)
      requires Valid() && !panicked
      modifies this, session
      ensures Valid() && View() == Step(old(View()), TellEnded) && session == old(session)
      ensures status == if panicked then None else Some(Ended)
      ensures session != null ==> session.ended
    {
      if session != null {
        var closes := session.End();
        assert made == old(made) && Ids(made) == old(Ids(made));
        if session.id == 0 && closes {
          panicked := true;
          return None;
        }
      }
      ending := ending + 1;
      return Some(Ended);
    }

    method InvalidateSession()
      requires Valid() && !panicked && ending > 0
      modifies this
      ensures Valid() && View() == Step(old(View()), Invalidate)
    {
      sessionId := -1;
      ending := ending - 1;
    }
  }
}
