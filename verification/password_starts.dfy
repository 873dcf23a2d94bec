/**
  Password attempts whose starts overlap (service/authenticate/session/password_tx.go). What
  can go wrong depends on the order in which the starts take their ids, create, start and
  launch their sessions. For each thing that can go wrong, this order decides exactly whether
  it does: a panic, a worker that gets a newer id, two workers with one id, and a result that
  is heard although it is not that of the most recent start.
 */
module PasswordStarts {
  import opened AuthTypes
  import opened Collections
  import opened PasswordAttempts

  // ---------- the schedule ----------

  /** Starts that have taken an id and not yet created their session. */
  function ToCreate(actions: seq<Action>): nat {
    if actions == [] then 0
    else
      var before := ToCreate(actions[..|actions| - 1]);
      match actions[|actions| - 1]
      case TakeId => before + 1
      case Create => if before > 0 then before - 1 else 0
      case _ => before
  }

  predicate Creates(actions: seq<Action>, a: Action) {
    a.Create? && ToCreate(actions) > 0
  }

  /** Starts that have created a session and not yet gone on to start one. */
  function ToStart(actions: seq<Action>): nat {
    if actions == [] then 0
    else
      var init, last := actions[..|actions| - 1], actions[|actions| - 1];
      var before := ToStart(init);
      if Creates(init, last) then before + 1
      else if last.StartPam? && before > 0 then before - 1
      else before
  }

  predicate Starts(actions: seq<Action>, a: Action) {
    a.StartPam? && ToStart(actions) > 0
  }

  /** Starts that have started a session and not yet gone on to launch a worker. */
  function ToLaunch(actions: seq<Action>): nat {
    if actions == [] then 0
    else
      var init, last := actions[..|actions| - 1], actions[|actions| - 1];
      var before := ToLaunch(init);
      if Starts(init, last) then before + if last.fails then 0 else 1
      else if last.Launch? && before > 0 then before - 1
      else before
  }

  /** A session has been created and none started since: the stored one is not started. */
  predicate Unstarted(actions: seq<Action>) {
    actions != [] &&
    var init, last := actions[..|actions| - 1], actions[|actions| - 1];
    Creates(init, last) || (Unstarted(init) && !Starts(init, last))
  }

  /** An id has been taken since a session was last started. */
  predicate TakenSince(actions: seq<Action>) {
    actions != [] &&
    var init, last := actions[..|actions| - 1], actions[|actions| - 1];
    last.TakeId? || (TakenSince(init) && !Starts(init, last))
  }

  predicate Launches(actions: seq<Action>, a: Action) {
    a.Launch? && ToLaunch(actions) > 0 && !Unstarted(actions)
  }

  /** A worker has been launched since a session was last created: the stored one has a worker. */
  predicate Served(actions: seq<Action>) {
    actions != [] &&
    var init, last := actions[..|actions| - 1], actions[|actions| - 1];
    Launches(init, last) || (Served(init) && !Creates(init, last))
  }

  /** Some action of the run is such, after what came before it. */
  ghost predicate Somewhere(such: (seq<Action>, Action) -> bool, actions: seq<Action>) {
    exists i :: 0 <= i < |actions| && such(actions[..i], actions[i])
  }

  lemma SomewhereStep(such: (seq<Action>, Action) -> bool, actions: seq<Action>)
    requires actions != []
    ensures var init, last := actions[..|actions| - 1], actions[|actions| - 1];
            Somewhere(such, actions) <==> Somewhere(such, init) || such(init, last)
  {
    var init := actions[..|actions| - 1];
    assert forall i | 0 <= i < |init| :: init[..i] == actions[..i] && init[i] == actions[i];
    if such(init, actions[|actions| - 1]) {
      assert actions[..|actions| - 1] == init;
    }
  }

  // ---------- when a run panics ----------

  /** An end, or the launch of a start, comes while the stored session is not started. */
  predicate Hits(actions: seq<Action>, a: Action) {
    Unstarted(actions) && (a.TellEnded? || (a.Launch? && ToLaunch(actions) > 0))
  }

  ghost predicate Panics(actions: seq<Action>) {
    Somewhere(Hits, actions)
  }

  predicate StoredUnstarted(s: System) {
    s.current.Some? && s.current.value < |s.sessions| && s.sessions[s.current.value] == 0
  }

  lemma StepPanics(s: System, a: Action)
    requires Sensible(s) && !s.panicked
    ensures Step(s, a).panicked <==> StoredUnstarted(s) && (a.TellEnded? || (a.Launch? && s.started > 0))
  {
  }

  lemma StepProgress(s: System, a: Action)
    requires Sensible(s) && !Step(s, a).panicked
    ensures var t := Step(s, a);
            && t.taken == (if a.TakeId? then s.taken + 1 else if a.Create? && s.taken > 0 then s.taken - 1 else s.taken)
            && t.created == (if a.Create? && s.taken > 0 then s.created + 1
                             else if a.StartPam? && s.created > 0 then s.created - 1 else s.created)
            && t.started == (if a.StartPam? && s.created > 0 then s.started + if a.fails then 0 else 1
                             else if a.Launch? && s.started > 0 then s.started - 1 else s.started)
  {
  }

  /** The schedule tells how far the starts are. */
  lemma {:induction false} ProgressIs(actions: seq<Action>)
    requires !Reached(actions).panicked
    ensures var s := Reached(actions);
            s.taken == ToCreate(actions) && s.created == ToStart(actions) && s.started == ToLaunch(actions)
  {
    if actions != [] {
      var init, last := actions[..|actions| - 1], actions[|actions| - 1];
      SensibleAlways(init);
      ProgressIs(init);
      StepProgress(Reached(init), last);
    }
  }

  lemma StepUnstarted(s: System, a: Action)
    requires Sensible(s) && !Step(s, a).panicked
    ensures StoredUnstarted(Step(s, a))
            <==> (a.Create? && s.taken > 0) || (StoredUnstarted(s) && !(a.StartPam? && s.created > 0))
  {
  }

  lemma {:induction false} UnstartedIs(actions: seq<Action>)
    requires !Reached(actions).panicked
    ensures Unstarted(actions) <==> StoredUnstarted(Reached(actions))
  {
    if actions != [] {
      var init, last := actions[..|actions| - 1], actions[|actions| - 1];
      SensibleAlways(init);
      ProgressIs(init);
      UnstartedIs(init);
      StepUnstarted(Reached(init), last);
    }
  }

  /** A run panics exactly when an end or a launch comes between a session's creation and its start. */
  lemma {:induction false} PanicsExactly(actions: seq<Action>)
    ensures Reached(actions).panicked <==> Panics(actions)
  {
    if actions != [] {
      var init, last := actions[..|actions| - 1], actions[|actions| - 1];
      PanicsExactly(init);
      SomewhereStep(Hits, actions);
      if !Reached(init).panicked {
        SensibleAlways(init);
        ProgressIs(init);
        UnstartedIs(init);
        StepPanics(Reached(init), last);
      }
    }
  }

  // ---------- the id a worker was launched under ----------

  /** The id a worker has right after the step that launches it. */
  function Newborn(s: System, t: System): seq<int> {
    if |s.workers| < |t.workers| then [IdOf(t, |s.workers|)] else []
  }

  /** The id each worker was launched under. */
  function Born(actions: seq<Action>): seq<int> {
    if actions == [] then []
    else
      var init := actions[..|actions| - 1];
      Born(init) + Newborn(Reached(init), Reached(actions))
  }

  predicate Restarts(s: System, a: Action, w: nat)
    requires w < |s.workers|
  {
    !s.panicked && a.StartPam? && s.created > 0 && s.current == Some(s.workers[w].session)
  }

  lemma WorkersGrow(s: System, a: Action)
    requires Sensible(s)
    ensures var t := Step(s, a);
            && |s.workers| <= |t.workers| <= |s.workers| + 1
            && forall w | 0 <= w < |s.workers| ::
                 && t.workers[w].session == s.workers[w].session
                 && (s.workers[w].done ==> t.workers[w].done)
                 && IdOf(t, w) == if Restarts(s, a, w) then s.nextSessionId else IdOf(s, w)
  {
  }

  /** Ids only grow, and none is newer than the newest. */
  ghost predicate Bounded(s: System, born: seq<int>) {
    |born| == |s.workers| && forall w | 0 <= w < |born| :: 0 < born[w] <= IdOf(s, w) <= s.nextSessionId
  }

  lemma StepBounds(s: System, a: Action, born: seq<int>)
    requires Sensible(s) && Bounded(s, born)
    ensures Bounded(Step(s, a), born + Newborn(s, Step(s, a)))
  {
    var t := Step(s, a);
    WorkersGrow(s, a);
    StepKeepsSensible(s, a);
    StepKeepsNewest(s, a);
    forall w | 0 <= w < |t.workers|
      ensures 0 < (born + Newborn(s, t))[w] <= IdOf(t, w) <= t.nextSessionId
    {
    }
  }

  lemma StepKeepsNewest(s: System, a: Action)
    ensures s.nextSessionId <= Step(s, a).nextSessionId
  {
  }

  lemma {:induction false} BornBounds(actions: seq<Action>)
    ensures Bounded(Reached(actions), Born(actions))
  {
    if actions != [] {
      var init, last := actions[..|actions| - 1], actions[|actions| - 1];
      BornBounds(init);
      SensibleAlways(init);
      StepBounds(Reached(init), last, Born(init));
    }
  }

  ghost predicate StoredWorker(s: System) {
    exists w :: 0 <= w < |s.workers| && s.current == Some(s.workers[w].session)
  }

  lemma StepServed(s: System, a: Action)
    requires Sensible(s) && !Step(s, a).panicked
    ensures StoredWorker(Step(s, a))
            <==> (a.Launch? && s.started > 0) || (StoredWorker(s) && !(a.Create? && s.taken > 0))
  {
    var t := Step(s, a);
    WorkersGrow(s, a);
    if a.Launch? && s.started > 0 {
      assert t.current == Some(t.workers[|s.workers|].session);
    } else if w :| 0 <= w < |s.workers| && s.current == Some(s.workers[w].session) {
      assert t.workers[w].session == s.workers[w].session;
    }
  }

  /** Once it is started, the stored session has an older id exactly if one was taken since. */
  predicate AgeIs(s: System, taken: bool) {
    s.current.Some? && s.current.value < |s.sessions| && s.sessions[s.current.value] > 0 ==>
      (taken <==> s.sessions[s.current.value] < s.nextSessionId)
  }

  lemma StepAge(s: System, a: Action, taken: bool)
    requires Sensible(s) && !Step(s, a).panicked && AgeIs(s, taken)
    ensures AgeIs(Step(s, a), a.TakeId? || (taken && !(a.StartPam? && s.created > 0)))
  {
  }

  /** The schedule tells whether the stored session has a worker and whether its id is the newest. */
  lemma {:induction false} StoredIs(actions: seq<Action>)
    requires !Reached(actions).panicked
    ensures Served(actions) <==> StoredWorker(Reached(actions))
    ensures AgeIs(Reached(actions), TakenSince(actions))
  {
    if actions != [] {
      var init, last := actions[..|actions| - 1], actions[|actions| - 1];
      StoredIs(init);
      ProgressIs(init);
      UnstartedIs(init);
      SensibleAlways(init);
      StepPanics(Reached(init), last);
      StepServed(Reached(init), last);
      StepAge(Reached(init), last, TakenSince(init));
    }
  }

  /** A start goes on while the stored session has a worker, and an id has been taken since its start. */
  ghost predicate Adopts(actions: seq<Action>, a: Action) {
    !Panics(actions) && Starts(actions, a) && Served(actions) && TakenSince(actions)
  }

  lemma AdoptsIs(actions: seq<Action>, a: Action)
    ensures Adopts(actions, a) <==> Renews(Reached(actions), a)
  {
    var s := Reached(actions);
    PanicsExactly(actions);
    SensibleAlways(actions);
    if !s.panicked {
      StoredIs(actions);
      ProgressIs(actions);
      if Adopts(actions, a) {
        var w :| 0 <= w < |s.workers| && s.current == Some(s.workers[w].session);
        assert Restarts(s, a, w);
      }
    }
  }

  ghost predicate AsBorn(s: System, born: seq<int>) {
    |born| == |s.workers| && forall w | 0 <= w < |born| :: IdOf(s, w) == born[w]
  }

  /** A worker whose session the step gives a newer id. */
  ghost predicate Renews(s: System, a: Action) {
    exists w :: 0 <= w < |s.workers| && Restarts(s, a, w) && IdOf(s, w) < s.nextSessionId
  }

  lemma StepKeepsIdsExactly(s: System, a: Action, born: seq<int>)
    requires Sensible(s) && Bounded(s, born)
    ensures AsBorn(Step(s, a), born + Newborn(s, Step(s, a))) <==> AsBorn(s, born) && !Renews(s, a)
  {
    WorkersGrow(s, a);
    var t := Step(s, a);
    if w :| 0 <= w < |s.workers| && Restarts(s, a, w) && IdOf(s, w) < s.nextSessionId {
      assert IdOf(t, w) > born[w];
    } else if w :| 0 <= w < |s.workers| && IdOf(s, w) != born[w] {
      assert IdOf(t, w) > born[w];
    } else {
      forall w | 0 <= w < |s.workers| ensures IdOf(t, w) == born[w] {
        assert IdOf(s, w) == born[w];
      }
    }
  }

  /**
    Every worker still has the id it was launched under exactly when no start went on while
    the stored session had a worker already and an older id.
   */
  lemma {:induction false} IdsKeptExactly(actions: seq<Action>)
    ensures AsBorn(Reached(actions), Born(actions)) <==> !Somewhere(Adopts, actions)
  {
    if actions != [] {
      var init, last := actions[..|actions| - 1], actions[|actions| - 1];
      IdsKeptExactly(init);
      SomewhereStep(Adopts, actions);
      BornBounds(init);
      SensibleAlways(init);
      AdoptsIs(init, last);
      StepKeepsIdsExactly(Reached(init), last, Born(init));
    }
  }

  // ---------- one worker per id ----------

  ghost predicate IdsDiffer(s: System) {
    forall i, j | 0 <= i < j < |s.workers| :: IdOf(s, i) != IdOf(s, j)
  }

  /** Where in the run each session was started last; -1 if it was not started. */
  function StartPlaces(actions: seq<Action>): seq<int> {
    if actions == [] then []
    else
      var init, last := actions[..|actions| - 1], actions[|actions| - 1];
      var places := StartPlaces(init);
      if Creates(init, last) then places + [-1]
      else if Starts(init, last) && places != [] then places[|places| - 1 := |init|]
      else places
  }

  /** Each session has the id that counts the ids taken before the place where it was started last. */
  ghost predicate PlacedIn(s: System, places: seq<int>, actions: seq<Action>) {
    && |places| == |s.sessions|
    && s.current == (if places == [] then None else Some(|places| - 1))
    && forall i | 0 <= i < |places| ::
         && -1 <= places[i] < |actions|
         && s.sessions[i] == if places[i] < 0 then 0 else CountStarts(actions[..places[i]])
  }

  lemma LongerRun(s: System, places: seq<int>, init: seq<Action>, actions: seq<Action>)
    requires PlacedIn(s, places, init) && init <= actions
    ensures PlacedIn(s, places, actions)
  {
    assert forall i | 0 <= i < |places| && places[i] >= 0 :: init[..places[i]] == actions[..places[i]];
  }

  lemma PlacedStep(s: System, a: Action, places: seq<int>, actions: seq<Action>)
    requires Sensible(s) && !Step(s, a).panicked && PlacedIn(s, places, actions)
    requires actions != [] && s.nextSessionId == CountStarts(actions[..|actions| - 1])
    ensures var placed := if a.Create? && s.taken > 0 then places + [-1]
                          else if a.StartPam? && s.created > 0 && places != []
                          then places[|places| - 1 := |actions| - 1] else places;
            PlacedIn(Step(s, a), placed, actions)
  {
  }

  lemma {:induction false} PlacesAre(actions: seq<Action>)
    requires !Reached(actions).panicked
    ensures PlacedIn(Reached(actions), StartPlaces(actions), actions)
  {
    if actions != [] {
      var init, last := actions[..|actions| - 1], actions[|actions| - 1];
      PlacesAre(init);
      ProgressIs(init);
      SensibleAlways(init);
      IdsFollowHistory(init);
      LongerRun(Reached(init), StartPlaces(init), init, actions);
      PlacedStep(Reached(init), last, StartPlaces(init), actions);
    }
  }

  /** An id has been taken between the two places. */
  ghost predicate TakenBetween(actions: seq<Action>, p: int, q: int) {
    exists k :: 0 <= k < |actions| && actions[k].TakeId? && (p <= k < q || q <= k < p)
  }

  lemma {:induction false} CountsGrow(actions: seq<Action>, p: nat, q: nat)
    requires p <= q <= |actions|
    ensures CountStarts(actions[..p]) <= CountStarts(actions[..q])
    ensures CountStarts(actions[..p]) < CountStarts(actions[..q]) <==> exists k :: p <= k < q && actions[k].TakeId?
  {
    if p < q {
      CountsGrow(actions, p, q - 1);
      assert actions[..q][..q - 1] == actions[..q - 1];
      if actions[q - 1].TakeId? {
        assert p <= q - 1 < q && actions[q - 1].TakeId?;
      }
    }
  }

  lemma CountsDifferExactly(actions: seq<Action>, p: nat, q: nat)
    requires p <= |actions| && q <= |actions|
    ensures CountStarts(actions[..p]) != CountStarts(actions[..q]) <==> TakenBetween(actions, p, q)
  {
    if p <= q {
      CountsGrow(actions, p, q);
    } else {
      CountsGrow(actions, q, p);
    }
  }

  /** Where the session of a worker was started last. */
  function PlaceOf(actions: seq<Action>, w: nat): int
    requires w < |Reached(actions).workers|
  {
    var c := Reached(actions).workers[w].session;
    if c < |StartPlaces(actions)| then StartPlaces(actions)[c] else -1
  }

  lemma IdOfPlace(actions: seq<Action>, w: nat)
    requires !Reached(actions).panicked && w < |Reached(actions).workers|
    ensures 0 <= PlaceOf(actions, w) < |actions|
    ensures IdOf(Reached(actions), w) == CountStarts(actions[..PlaceOf(actions, w)])
  {
    PlacesAre(actions);
    SensibleAlways(actions);
  }

  /**
    The ids of all workers are different exactly when between the last starts of the sessions
    of any two of them an id was taken. Two workers of one session never satisfy this.
   */
  lemma IdsDifferExactly(actions: seq<Action>)
    requires !Reached(actions).panicked
    ensures IdsDiffer(Reached(actions)) <==>
            forall v, w | 0 <= v < w < |Reached(actions).workers| ::
              TakenBetween(actions, PlaceOf(actions, v), PlaceOf(actions, w))
  {
    forall v, w | 0 <= v < w < |Reached(actions).workers|
      ensures IdOf(Reached(actions), v) != IdOf(Reached(actions), w)
              <==> TakenBetween(actions, PlaceOf(actions, v), PlaceOf(actions, w))
    {
      IdOfPlace(actions, v);
      IdOfPlace(actions, w);
      CountsDifferExactly(actions, PlaceOf(actions, v), PlaceOf(actions, w));
    }
  }

  // ---------- whose result is heard ----------

  /** The final status of the worker would be handed on now. */
  ghost predicate Heard(actions: seq<Action>, w: nat, passed: bool) {
    Reached(actions + [Finishes(w, passed)]).given != Reached(actions).given
  }

  /** The worker was launched under the id of the most recent start, and no other one was. */
  ghost predicate OnlyNewest(born: seq<int>, newest: int, w: nat) {
    w < |born| && born[w] == newest && forall v | 0 <= v < |born| && v != w :: born[v] != newest
  }

  /** Whichever worker finishes next is heard only if it is the one launched by the most recent start. */
  ghost predicate OwnResults(actions: seq<Action>) {
    forall w, passed | Heard(actions, w, passed) :: OnlyNewest(Born(actions), CountStarts(actions), w)
  }

  ghost predicate AlwaysOwnResults(actions: seq<Action>) {
    OwnResults(actions) && (actions != [] ==> AlwaysOwnResults(actions[..|actions| - 1]))
  }

  /** A worker has been launched under the id of the most recent start. */
  predicate NewestLaunched(actions: seq<Action>) {
    actions != [] &&
    var init, last := actions[..|actions| - 1], actions[|actions| - 1];
    !last.TakeId? && (NewestLaunched(init) || (Launches(init, last) && !TakenSince(init)))
  }

  predicate StoredPending(s: System) {
    exists w :: 0 <= w < |s.workers| && !s.workers[w].done && s.current == Some(s.workers[w].session)
  }

  /**
    While an attempt is open, a start goes on with the session of an unfinished worker, an id
    having been taken since that was started; or a second worker is launched under the newest id.
   */
  ghost predicate Mixes(actions: seq<Action>, a: Action) {
    && !Panics(actions) && Open(actions)
    && ((Starts(actions, a) && TakenSince(actions) && StoredPending(Reached(actions)))
        || (Launches(actions, a) && !TakenSince(actions) && NewestLaunched(actions)))
  }

  // the same on states

  ghost predicate Audible(s: System, w: nat) {
    !s.panicked && w < |s.workers| && !s.workers[w].done && IdOf(s, w) == s.sessionId
  }

  lemma HeardIs(actions: seq<Action>, w: nat, passed: bool)
    ensures Heard(actions, w, passed) <==> Audible(Reached(actions), w)
  {
    var s := Reached(actions);
    ReachedStep(actions, Finishes(w, passed));
    if Audible(s, w) {
      AudibleIsGiven(s, w, passed);
    }
  }

  lemma AudibleIsGiven(s: System, w: nat, passed: bool)
    requires Audible(s, w)
    ensures Step(s, Finishes(w, passed)).given == s.given + [Entry(w, if passed then Success else Failure)]
  {
  }

  ghost predicate AudibleAreOwn(s: System, born: seq<int>) {
    forall w | 0 <= w < |s.workers| && Audible(s, w) :: OnlyNewest(born, s.nextSessionId, w)
  }

  lemma OwnResultsIs(actions: seq<Action>)
    ensures OwnResults(actions) <==> AudibleAreOwn(Reached(actions), Born(actions))
  {
    var s := Reached(actions);
    if !s.panicked {
      IdsFollowHistory(actions);
    }
    if OwnResults(actions) {
      forall w | 0 <= w < |s.workers| && Audible(s, w) ensures OnlyNewest(Born(actions), s.nextSessionId, w) {
        HeardIs(actions, w, true);
      }
    }
    if AudibleAreOwn(s, Born(actions)) {
      forall w, passed | Heard(actions, w, passed) ensures OnlyNewest(Born(actions), CountStarts(actions), w) {
        HeardIs(actions, w, passed);
      }
    }
  }

  /** Mixes, on a state and the ids its workers were launched under. */
  ghost predicate Mixing(s: System, a: Action, born: seq<int>) {
    && !s.panicked && s.sessionId == s.nextSessionId
    && s.current.Some? && s.current.value < |s.sessions|
    && ((a.StartPam? && s.created > 0 && s.sessions[s.current.value] < s.nextSessionId && StoredPending(s))
        || (a.Launch? && s.started > 0 && s.sessions[s.current.value] == s.nextSessionId && s.nextSessionId in born))
  }

  lemma StepNewest(s: System, a: Action, born: seq<int>)
    requires Sensible(s) && Bounded(s, born) && !Step(s, a).panicked
    ensures var t := Step(s, a);
            t.nextSessionId in born + Newborn(s, t) <==>
            !a.TakeId? && (s.nextSessionId in born
                           || (a.Launch? && s.started > 0 && s.sessions[s.current.value] == s.nextSessionId))
  {
    var t := Step(s, a);
    StepIds(s, a);
    if a.TakeId? {
      assert forall w | 0 <= w < |born| :: born[w] <= s.nextSessionId;
    } else if a.Launch? && s.started > 0 {
      assert Newborn(s, t) == [s.sessions[s.current.value]];
    } else {
      assert Newborn(s, t) == [];
    }
  }

  lemma {:induction false} NewestIs(actions: seq<Action>)
    requires !Reached(actions).panicked
    ensures NewestLaunched(actions) <==> Reached(actions).nextSessionId in Born(actions)
  {
    if actions != [] {
      var init, last := actions[..|actions| - 1], actions[|actions| - 1];
      NewestIs(init);
      SensibleAlways(init);
      BornBounds(init);
      ProgressIs(init);
      UnstartedIs(init);
      StoredIs(init);
      StepPanics(Reached(init), last);
      StepNewest(Reached(init), last, Born(init));
    }
  }

  lemma MixesIs(actions: seq<Action>, a: Action)
    ensures Mixes(actions, a) <==> Mixing(Reached(actions), a, Born(actions))
  {
    var s := Reached(actions);
    PanicsExactly(actions);
    SensibleAlways(actions);
    if !s.panicked {
      IdsFollowHistory(actions);
      ProgressIs(actions);
      UnstartedIs(actions);
      StoredIs(actions);
      NewestIs(actions);
    }
  }

  /** A step that mixes leaves an audible worker that is not the one of the most recent start. */
  lemma MixingBreaks(s: System, a: Action, born: seq<int>)
    requires Sensible(s) && Bounded(s, born) && Mixing(s, a, born)
    ensures !AudibleAreOwn(Step(s, a), born + Newborn(s, Step(s, a)))
  {
    var t := Step(s, a);
    WorkersGrow(s, a);
    if a.StartPam? {
      var w :| 0 <= w < |s.workers| && !s.workers[w].done && s.current == Some(s.workers[w].session);
      assert Restarts(s, a, w) && Audible(t, w);
      assert born[w] < t.nextSessionId;
    } else {
      var w := |s.workers|;
      var v :| 0 <= v < |born| && born[v] == s.nextSessionId;
      assert Audible(t, w);
      assert (born + Newborn(s, t))[v] == t.nextSessionId;
    }
  }

  lemma OthersKeepOwn(s: System, a: Action, born: seq<int>)
    requires Sensible(s) && Bounded(s, born) && AudibleAreOwn(s, born)
    requires s.sessionId == s.nextSessionId || s.sessionId <= 0
    requires !Mixing(s, a, born)
    ensures AudibleAreOwn(Step(s, a), born + Newborn(s, Step(s, a)))
  {
    var t := Step(s, a);
    WorkersGrow(s, a);
    StepBounds(s, a, born);
    if !t.panicked {
      StepIds(s, a);
      forall w | 0 <= w < |t.workers| && Audible(t, w)
        ensures OnlyNewest(born + Newborn(s, t), t.nextSessionId, w)
      {
        if w < |s.workers| {
          assert Audible(s, w);
          assert OnlyNewest(born, s.nextSessionId, w);
        }
      }
    }
  }

  lemma OwnStepExactly(init: seq<Action>, last: Action)
    ensures OwnResults(init) ==> (OwnResults(init + [last]) <==> !Mixes(init, last))
    ensures Mixes(init, last) ==> !OwnResults(init + [last])
  {
    var s, actions := Reached(init), init + [last];
    ReachedStep(init, last);
    assert actions[..|init|] == init;
    OwnResultsIs(init);
    OwnResultsIs(actions);
    MixesIs(init, last);
    SensibleAlways(init);
    BornBounds(init);
    if Mixing(s, last, Born(init)) {
      MixingBreaks(s, last, Born(init));
    } else if OwnResults(init) && !s.panicked {
      IdsFollowHistory(init);
      OthersKeepOwn(s, last, Born(init));
    }
  }

  /**
    At every moment whichever worker finishes is heard only if it is the one worker launched
    by the most recent start, exactly when no step mixes.
   */
  lemma {:induction false} ResultsAreOwnExactly(actions: seq<Action>)
    ensures AlwaysOwnResults(actions) <==> !Somewhere(Mixes, actions)
  {
    if actions != [] {
      var init, last := actions[..|actions| - 1], actions[|actions| - 1];
      ResultsAreOwnExactly(init);
      SomewhereStep(Mixes, actions);
      assert init + [last] == actions;
      OwnStepExactly(init, last);
    } else {
      OwnResultsIs(actions);
    }
  }

  lemma HeardCounts(actions: seq<Action>, w: nat, passed: bool)
    requires Heard(actions, w, passed)
    ensures CountFinals(Reached(actions + [Finishes(w, passed)]).given, w) == 1
  {
    HeardIs(actions, w, passed);
    AudibleIsGiven(Reached(actions), w, passed);
    ReachedStep(actions, Finishes(w, passed));
    OneFinalPerWorker(actions, w);
    CountFinalsStep(Reached(actions).given, Entry(w, if passed then Success else Failure), w);
  }

  /**
    As long as no step mixes, a final status that is heard is that of the one worker launched
    by the most recent start, which is open, and the only one of that worker.
   */
  lemma AttemptHeardOnce(actions: seq<Action>, w: nat, passed: bool)
    requires !Somewhere(Mixes, actions) && Heard(actions, w, passed)
    ensures var s := Reached(actions);
            && !s.panicked && Open(actions) && w < |s.workers| && IdOf(s, w) == CountStarts(actions)
            && OnlyNewest(Born(actions), CountStarts(actions), w)
            && CountFinals(Reached(actions + [Finishes(w, passed)]).given, w) == 1
  {
    var s := Reached(actions);
    HeardIs(actions, w, passed);
    IdsFollowHistory(actions);
    BornBounds(actions);
    ResultsAreOwnExactly(actions);
    HeardCounts(actions, w, passed);
  }

  /** How many final statuses have been heard since the most recent start. */
  ghost function FinalsSince(actions: seq<Action>): nat {
    if actions == [] then 0
    else
      var init, last := actions[..|actions| - 1], actions[|actions| - 1];
      if last.TakeId? then 0
      else FinalsSince(init) + if last.Finishes? && Heard(init, last.worker, last.passed) then 1 else 0
  }

  ghost predicate NewestDone(s: System, born: seq<int>) {
    exists w :: 0 <= w < |born| && w < |s.workers| && s.workers[w].done && born[w] == s.nextSessionId
  }

  lemma NewestDoneStays(s: System, a: Action, born: seq<int>)
    requires Sensible(s) && Bounded(s, born) && NewestDone(s, born) && !a.TakeId?
    ensures NewestDone(Step(s, a), born + Newborn(s, Step(s, a)))
  {
    var w :| 0 <= w < |born| && w < |s.workers| && s.workers[w].done && born[w] == s.nextSessionId;
    WorkersGrow(s, a);
    assert (born + Newborn(s, Step(s, a)))[w] == born[w];
  }

  lemma HeardIsDone(s: System, a: Action, born: seq<int>)
    requires Sensible(s) && Bounded(s, born) && a.Finishes? && Audible(s, a.worker)
    requires OnlyNewest(born, s.nextSessionId, a.worker)
    ensures !NewestDone(s, born)
    ensures NewestDone(Step(s, a), born + Newborn(s, Step(s, a)))
  {
    var t := Step(s, a);
    assert t.workers[a.worker].done && (born + Newborn(s, t))[a.worker] == t.nextSessionId;
  }

  /** As long as no step mixes, at most one final status is heard for each start. */
  lemma {:induction false} OneFinalPerStart(actions: seq<Action>)
    requires !Somewhere(Mixes, actions)
    ensures FinalsSince(actions) <= 1
    ensures FinalsSince(actions) == 1 ==> NewestDone(Reached(actions), Born(actions))
  {
    if actions != [] {
      var init, last := actions[..|actions| - 1], actions[|actions| - 1];
      SomewhereStep(Mixes, actions);
      OneFinalPerStart(init);
      SensibleAlways(init);
      BornBounds(init);
      if last.Finishes? && Heard(init, last.worker, last.passed) {
        AttemptHeardOnce(init, last.worker, last.passed);
        HeardIs(init, last.worker, last.passed);
        IdsFollowHistory(init);
        HeardIsDone(Reached(init), last, Born(init));
      } else if FinalsSince(actions) > 0 {
        NewestDoneStays(Reached(init), last, Born(init));
      }
    }
  }

  // ---------- starts that are kept apart ----------

  predicate Idle(s: System) {
    s.taken + s.created + s.started == 0
  }

  /** No start and no end begins while a start is under way. */
  predicate KeptApart(actions: seq<Action>) {
    actions != [] ==>
      var init, last := actions[..|actions| - 1], actions[|actions| - 1];
      KeptApart(init) && (last.TakeId? || last.TellEnded? ==> Idle(Reached(init)))
  }

  /** Each session object has an id of its own and at most one worker; a start under way has none yet. */
  ghost predicate Tidy(s: System) {
    && Sensible(s) && !s.panicked && s.taken + s.created + s.started <= 1
    && (forall i, j | 0 <= i < j < |s.sessions| && s.sessions[j] > 0 :: s.sessions[i] < s.sessions[j])
    && (forall i | 0 <= i < |s.sessions| - s.created :: s.sessions[i] > 0)
    && (forall v, w | 0 <= v < w < |s.workers| :: s.workers[v].session != s.workers[w].session)
    && (s.created + s.started > 0 ==>
          && s.current == Some(|s.sessions| - 1)
          && forall w | 0 <= w < |s.workers| :: s.workers[w].session < |s.sessions| - 1)
    && (s.taken + s.created > 0 ==> forall i | 0 <= i < |s.sessions| :: s.sessions[i] < s.nextSessionId)
    && (s.created > 0 ==> s.sessions[|s.sessions| - 1] == 0)
  }

  lemma TidyCreate(s: System)
    requires Tidy(s)
    ensures Tidy(Step(s, Create))
  {
  }

  lemma TidyStart(s: System, fails: bool)
    requires Tidy(s)
    ensures Tidy(Step(s, StartPam(fails)))
  {
  }

  /** What has been given, and which workers are done, plays no part. */
  lemma SameShapeTidy(s: System, t: System)
    requires Tidy(s) && t == s.(given := t.given, workers := t.workers)
    requires |t.workers| == |s.workers|
    requires forall w | 0 <= w < |s.workers| :: t.workers[w].session == s.workers[w].session
    ensures Tidy(t)
  {
  }

  lemma TidyAddWorker(s: System)
    requires Tidy(s) && s.started > 0
    ensures Tidy(AddWorker(s, |s.sessions| - 1))
  {
    var t, n := AddWorker(s, |s.sessions| - 1), |s.workers|;
    assert t.workers[..n] == s.workers && t.workers[n].session == |s.sessions| - 1;
    assert forall w | 0 <= w < n :: t.workers[w] == s.workers[w];
  }

  lemma TidyLaunch(s: System)
    requires Tidy(s)
    ensures Tidy(Step(s, Launch))
  {
    if s.started > 0 {
      TidyAddWorker(s);
      SameShapeTidy(AddWorker(s, |s.sessions| - 1), Step(s, Launch));
    }
  }

  lemma TidyTakeId(s: System)
    requires Tidy(s) && Idle(s)
    ensures Tidy(Step(s, TakeId))
  {
  }

  lemma SameIdsTidy(s: System, t: System)
    requires Tidy(s) && t == s.(ending := t.ending, sessionId := t.sessionId)
    ensures Tidy(t)
  {
  }

  lemma TidyEnd(s: System, a: Action)
    requires Tidy(s) && ((a.TellEnded? && Idle(s)) || a.Invalidate?)
    ensures Tidy(Step(s, a))
  {
    SameIdsTidy(s, Step(s, a));
  }

  lemma StepKeepsTidy(s: System, a: Action)
    requires Tidy(s) && (a.TakeId? || a.TellEnded? ==> Idle(s))
    ensures Tidy(Step(s, a))
  {
    match a {
      case Create => TidyCreate(s);
      case StartPam(fails) => TidyStart(s, fails);
      case Launch => TidyLaunch(s);
      case Prompts(_) => SameShapeTidy(s, Step(s, a));
      case Finishes(_, _) => SameShapeTidy(s, Step(s, a));
      case TakeId => TidyTakeId(s);
      case _ => TidyEnd(s, a);
    }
  }

  lemma {:induction false} ApartIsTidy(actions: seq<Action>)
    requires KeptApart(actions)
    ensures Tidy(Reached(actions))
  {
    if actions != [] {
      ApartIsTidy(actions[..|actions| - 1]);
      StepKeepsTidy(Reached(actions[..|actions| - 1]), actions[|actions| - 1]);
    }
  }

  lemma OwnSession(s: System, v: nat, w: nat)
    requires Tidy(s) && v < |s.workers| && w < |s.workers| && IdOf(s, v) == IdOf(s, w)
    ensures v == w
  {
    var i, j := s.workers[v].session, s.workers[w].session;
    assert s.sessions[i] == s.sessions[j] && s.sessions[i] > 0;
  }

  lemma ApartDiffer(s: System)
    requires Tidy(s)
    ensures IdsDiffer(s)
  {
    forall v, w | 0 <= v < w < |s.workers| ensures IdOf(s, v) != IdOf(s, w) {
      if IdOf(s, v) == IdOf(s, w) {
        OwnSession(s, v, w);
      }
    }
  }

  lemma TidyNeverMixes(s: System, a: Action, born: seq<int>)
    requires Tidy(s) && AsBorn(s, born)
    ensures !Renews(s, a) && !Mixing(s, a, born)
  {
    if a.Launch? && s.started > 0 {
      forall v | 0 <= v < |born| ensures born[v] < s.sessions[s.current.value] {
        assert s.workers[v].session < s.current.value;
      }
    }
  }

  /** Starts that are kept apart never panic, keep and do not share their ids, and never mix. */
  lemma {:induction false} KeptApartIsSafe(actions: seq<Action>)
    requires KeptApart(actions)
    ensures !Panics(actions) && IdsDiffer(Reached(actions))
    ensures AsBorn(Reached(actions), Born(actions)) && !Somewhere(Mixes, actions)
  {
    ApartIsTidy(actions);
    ApartDiffer(Reached(actions));
    PanicsExactly(actions);
    if actions != [] {
      var init, last := actions[..|actions| - 1], actions[|actions| - 1];
      KeptApartIsSafe(init);
      ApartIsTidy(init);
      TidyNeverMixes(Reached(init), last, Born(init));
      MixesIs(init, last);
      SomewhereStep(Mixes, actions);
      BornBounds(init);
      StepKeepsIdsExactly(Reached(init), last, Born(init));
    }
  }

  // ---------- starts that overlap ----------

  lemma Extend(actions: seq<Action>, s: System, a: Action, t: System) returns (more: seq<Action>)
    requires Reached(actions) == s && Step(s, a) == t
    ensures more == actions + [a] && Reached(more) == t
  {
    ReachedStep(actions, a);
    more := actions + [a];
  }

  /** Both starts take an id before either goes on: both sessions get the second id, and both results are heard. */
  lemma OverlappingStartsShareAnId() returns (actions: seq<Action>)
    ensures var s := Reached(actions);
            && s.sessions == [2, 2] && s.workers == [Worker(0, true), Worker(1, true)]
            && s.given == [Entry(0, Started), Entry(1, Started), Entry(0, Success), Entry(1, Failure)]
  {
    var s0 := IDLE;
    actions := [];
    var s1 := Step(s0, TakeId);
    actions := Extend(actions, s0, TakeId, s1);
    var s2 := Step(s1, TakeId);
    actions := Extend(actions, s1, TakeId, s2);
    assert s2 == System(2, 2, [], None, 2, 0, 0, 0, [], [], false);
    var s3, s4, s5;
    actions, s3 := OneStart(actions, s2);
    actions, s4 := OneStart(actions, s3);
    assert s4.workers == [Worker(0, false), Worker(1, false)] && s4.sessions == [2, 2];
    s5 := Step(s4, Finishes(0, true));
    actions := Extend(actions, s4, Finishes(0, true), s5);
    actions := Extend(actions, s5, Finishes(1, false), Step(s5, Finishes(1, false)));
  }

  /** The rest of a start that nothing else comes in between. */
  lemma OneStart(actions: seq<Action>, s: System) returns (more: seq<Action>, t: System)
    requires Reached(actions) == s && !s.panicked && s.taken > 0 && s.created == s.started == 0
    requires s.sessionId == s.nextSessionId > 0
    ensures Reached(more) == t
    ensures var n, id := |s.sessions|, s.nextSessionId;
            t == s.(sessions := s.sessions + [id], current := Some(n), taken := s.taken - 1,
                    workers := s.workers + [Worker(n, false)], given := s.given + [Entry(|s.workers|, Started)])
  {
    var n := |s.sessions|;
    var s1 := Step(s, Create);
    more := Extend(actions, s, Create, s1);
    var s2 := Step(s1, StartPam(false));
    assert s2.sessions == s.sessions + [s.nextSessionId];
    more := Extend(more, s1, StartPam(false), s2);
    t := Step(s2, Launch);
    more := Extend(more, s2, Launch, t);
  }

  /** A start that overwrites the stored session before the other one has launched makes that launch panic. */
  lemma OverwrittenSessionPanics() returns (actions: seq<Action>)
    ensures Reached(actions).panicked && |actions| == 6
  {
    var s0 := IDLE;
    var s1 := Step(s0, TakeId);
    var s2 := Step(s1, Create);
    var s3 := Step(s2, StartPam(false));
    actions := Extend([], s0, TakeId, s1);
    actions := Extend(actions, s1, Create, s2);
    actions := Extend(actions, s2, StartPam(false), s3);
    assert s3 == System(1, 1, [1], Some(0), 0, 0, 1, 0, [], [], false);
    var s4 := Step(s3, TakeId);
    var s5 := Step(s4, Create);
    actions := Extend(actions, s3, TakeId, s4);
    actions := Extend(actions, s4, Create, s5);
    assert s5 == System(2, 2, [1, 0], Some(1), 0, 1, 1, 0, [], [], false);
    actions := Extend(actions, s5, Launch, Step(s5, Launch));
  }

  /** The first start is left with a session created, the second has launched its worker. */
  lemma OneStartLeftBehind() returns (actions: seq<Action>)
    ensures CountStarts(actions) == 2
    ensures Reached(actions)
        == System(2, 2, [0, 2], Some(1), 0, 1, 0, 0, [Worker(1, false)], [Entry(0, Started)], false)
  {
    var s0 := IDLE;
    var s1 := Step(s0, TakeId);
    var s2 := Step(s1, Create);
    var s3 := Step(s2, TakeId);
    actions := Extend([], s0, TakeId, s1);
    actions := Extend(actions, s1, Create, s2);
    actions := Extend(actions, s2, TakeId, s3);
    assert s3 == System(2, 2, [0], Some(0), 1, 1, 0, 0, [], [], false);
    actions := SecondStart(actions, s3);
    IdsFollowHistory(actions);
  }

  lemma SecondStart(actions: seq<Action>, s3: System) returns (more: seq<Action>)
    requires Reached(actions) == s3 && s3 == System(2, 2, [0], Some(0), 1, 1, 0, 0, [], [], false)
    ensures Reached(more) == System(2, 2, [0, 2], Some(1), 0, 1, 0, 0, [Worker(1, false)], [Entry(0, Started)], false)
  {
    var s4 := Step(s3, Create);
    var s5 := Step(s4, StartPam(false));
    more := Extend(actions, s3, Create, s4);
    more := Extend(more, s4, StartPam(false), s5);
    assert s5 == System(2, 2, [0, 2], Some(1), 0, 1, 1, 0, [], [], false);
    more := Extend(more, s5, Launch, Step(s5, Launch));
  }

  /**
    A start that goes on late gives the session of an older worker the newest id, and the
    result of that worker is heard as the newest.
   */
  lemma OldWorkerAdoptsId() returns (actions: seq<Action>)
    ensures var s := Reached(actions);
            && CountStarts(actions) == 3 && s.workers == [Worker(1, true)] && s.sessions == [0, 3]
            && s.given == [Entry(0, Started), Entry(0, Success)]
  {
    actions := OneStartLeftBehind();
    actions := AdoptAndFinish(actions, Reached(actions));
    IdsFollowHistory(actions);
  }

  lemma AdoptAndFinish(actions: seq<Action>, s6: System) returns (more: seq<Action>)
    requires Reached(actions) == s6
    requires s6 == System(2, 2, [0, 2], Some(1), 0, 1, 0, 0, [Worker(1, false)], [Entry(0, Started)], false)
    ensures Reached(more) ==
            System(3, 3, [0, 3], Some(1), 1, 0, 1, 0, [Worker(1, true)], [Entry(0, Started), Entry(0, Success)], false)
  {
    var s7 := Step(s6, TakeId);
    var s8 := Step(s7, StartPam(false));
    more := Extend(actions, s6, TakeId, s7);
    more := Extend(more, s7, StartPam(false), s8);
    assert s8 == System(3, 3, [0, 3], Some(1), 1, 0, 1, 0, [Worker(1, false)], [Entry(0, Started)], false);
    more := Extend(more, s8, Finishes(0, true), Step(s8, Finishes(0, true)));
  }
}
