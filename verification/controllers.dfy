/**
  What the two session controllers compute, said of the history of reports they have
  taken from their queue (service/authenticate/session). A report carries the status the
  factor had when it was put into the queue: the queue holds a copy of the factor made at
  that moment (session/tx.go).
 */
module Controllers {
  import opened AuthTypes
  import opened Collections

  datatype Report = Report(type0: AuthType, status: Status) {
    /** The report counts towards the verdict. */
    predicate Counted() {
      !ShouldIgnore(status)
    }
  }

  /** The latest counted status of a factor. */
  function Latest(h: seq<Report>, t: AuthType): Option<Status> {
    if h == [] then None
    else if h[|h| - 1].type0 == t && h[|h| - 1].Counted() then Some(h[|h| - 1].status)
    else Latest(h[..|h| - 1], t)
  }

  predicate Reported(h: seq<Report>, t: AuthType) {
    Latest(h, t).Some?
  }

  predicate Passed(h: seq<Report>, t: AuthType) {
    Latest(h, t) == Some(Success)
  }

  predicate IsKeyboard(t: AuthType) {
    AuthTypeToInputType(t) == Keyboard
  }

  /** Some factor that takes keyboard input has reported. */
  ghost predicate KeyboardReported(h: seq<Report>) {
    exists r | r in h :: r.Counted() && IsKeyboard(r.type0)
  }

  /**
    A session either demands all of several factors, or accepts any one of those offered.
   */
  datatype Controller = Multi(factors: seq<AuthType>) | Single(factors: seq<AuthType>) {

    /** Success, Failure, or Verifying while there is no verdict yet. */
    ghost function Verdict(h: seq<Report>): Status {
      if Multi? then
        if forall t | t in factors :: Passed(h, t) then Success
        else if forall t | t in factors :: Reported(h, t) then Failure
        else Verifying
      else
        if exists t | t in factors :: Passed(h, t) then Success
        else if (exists t | t in factors :: Latest(h, t) == Some(Failure))
                && (KeyboardReported(h) ==> forall t | t in factors && IsKeyboard(t) :: Reported(h, t)) then Failure
        else Verifying
    }

    /** What the controller does about a report r that comes after the history h. */
    ghost function Respond(h: seq<Report>, r: Report): seq<Effect> {
      Response(r, Verdict(h + [r]))
    }

    ghost function Transcript(h: seq<Report>): seq<Effect> {
      if h == [] then [] else Transcript(h[..|h| - 1]) + Respond(h[..|h| - 1], h[|h| - 1])
    }
  }

  // ---------- effects ----------

  datatype LimitUpdate = FailOne(type0: AuthType) | SucceedOne(type0: AuthType) | ResetAll

  /** A status signal to the client, or an update of the limits of the user. */
  datatype Effect = Emit(flag: Flag, status: Status) | Update(update: LimitUpdate)

  /** session/manager.go: a password that passes lifts every limit, as does the aggregate. */
  function UpdateLimits(status: Status, flag: Flag): seq<Effect> {
    if flag == FLAG_ALL then
      if status.Success? then [Update(ResetAll)] else []
    else if status.Success? then
      if flag == FLAG_PASSWORD then [Update(ResetAll)] else [Update(SucceedOne(AuthFlagToType(flag)))]
    else if status.Failure? || status.Exception? then [Update(FailOne(AuthFlagToType(flag)))]
    else []
  }

  /** A report is passed on; a counted one moves the limits and may settle the session. */
  function Response(r: Report, v: Status): seq<Effect> {
    var flag := AuthTypeToFlag(r.type0);
    [Emit(flag, r.status)] +
    if r.Counted() then UpdateLimits(r.status, flag) + AnnounceVerdict(v) else []
  }

  function AnnounceVerdict(v: Status): seq<Effect> {
    if v.Success? || v.Failure? then [Emit(FLAG_ALL, v)] + UpdateLimits(v, FLAG_ALL) else []
  }

  lemma Regroup<T>(o: seq<T>, a: seq<T>, b: seq<T>, c: seq<T>, d: seq<T>)
    ensures o + a + b + c + d == o + (a + (b + (c + d)))
    ensures o + a + b == o + (a + (b + []))
  {
  }

  lemma LatestStep(h: seq<Report>, r: Report, t: AuthType)
    ensures Latest(h + [r], t) == if r.type0 == t && r.Counted() then Some(r.status) else Latest(h, t)
  {
    assert (h + [r])[..|h|] == h;
  }

  lemma TranscriptStep(c: Controller, h: seq<Report>, r: Report)
    ensures c.Transcript(h + [r]) == c.Transcript(h) + c.Respond(h, r)
  {
    assert (h + [r])[..|h|] == h;
  }

  // ---------- which reports count ----------

  /** A report that tells of progress is passed on and changes nothing else, whatever has happened before. */
  lemma ProgressChangesNothing(c: Controller, h: seq<Report>, r: Report)
    requires r.status in {Verifying, Prompt, Locked, Ended, Started}
    ensures c.Respond(h, r) == [Emit(AuthTypeToFlag(r.type0), r.status)]
    ensures c.Verdict(h + [r]) == c.Verdict(h)
    ensures forall t :: Latest(h + [r], t) == Latest(h, t)
  {
    forall t {
      LatestStep(h, r, t);
    }
    assert KeyboardReported(h + [r]) <==> KeyboardReported(h) by {
      assert forall k | k in h :: k in h + [r];
    }
    assert forall t :: Passed(h + [r], t) <==> Passed(h, t);
    assert forall t :: Reported(h + [r], t) <==> Reported(h, t);
  }

  /** Every other report becomes the latest word of its factor, and of no other. */
  lemma OthersBecomeLatest(h: seq<Report>, r: Report, t: AuthType)
    requires r.status !in {Verifying, Prompt, Locked, Ended, Started}
    ensures Latest(h + [r], t) == if r.type0 == t then Some(r.status) else Latest(h, t)
  {
    LatestStep(h, r, t);
  }

  /** Report i is the last one of the factor that does not merely tell of progress. */
  ghost predicate LastWord(h: seq<Report>, t: AuthType, i: int) {
    && 0 <= i < |h| && h[i].type0 == t && h[i].status !in {Verifying, Prompt, Locked, Ended, Started}
    && forall j | i < j < |h| && h[j].type0 == t :: h[j].status in {Verifying, Prompt, Locked, Ended, Started}
  }

  lemma {:induction false} LatestIsLastWord(h: seq<Report>, t: AuthType) returns (i: int)
    ensures if Latest(h, t).Some? then LastWord(h, t, i) && h[i].status == Latest(h, t).value
            else forall j :: !LastWord(h, t, j)
    ensures forall j | LastWord(h, t, j) :: i == j
  {
    if h == [] {
      i := -1;
    } else {
      var init, last := h[..|h| - 1], h[|h| - 1];
      if last.type0 == t && last.Counted() {
        i := |h| - 1;
      } else {
        i := LatestIsLastWord(init, t);
        assert forall j | LastWord(h, t, j) :: LastWord(init, t, j);
      }
    }
  }

  ghost predicate LastWordIs(h: seq<Report>, t: AuthType, s: Status) {
    exists i :: LastWord(h, t, i) && h[i].status == s
  }

  ghost predicate HasWord(h: seq<Report>, t: AuthType) {
    exists i :: LastWord(h, t, i)
  }

  lemma WordsAre(h: seq<Report>)
    ensures forall t, s :: LastWordIs(h, t, s) <==> Latest(h, t) == Some(s)
    ensures forall t :: HasWord(h, t) <==> Reported(h, t)
  {
    forall t, s ensures LastWordIs(h, t, s) <==> Latest(h, t) == Some(s) {
      var i := LatestIsLastWord(h, t);
    }
    forall t ensures HasWord(h, t) <==> Reported(h, t) {
      var i := LatestIsLastWord(h, t);
    }
  }

  /**
    A session that demands all its factors: success if each passed last, failure if each has
    reported and one did not pass.
   */
  lemma MultiVerdictExactly(factors: seq<AuthType>, h: seq<Report>)
    ensures Multi(factors).Verdict(h) ==
            if forall t | t in factors :: LastWordIs(h, t, Success) then Success
            else if forall t | t in factors :: HasWord(h, t) then Failure
            else Verifying
  {
    WordsAre(h);
  }

  /**
    A session that accepts any one factor: success if one passed last; failure if one failed
    last, unless the keyboard has been used and one of its factors has yet to report.
   */
  lemma SingleVerdictExactly(factors: seq<AuthType>, h: seq<Report>)
    ensures Single(factors).Verdict(h) ==
            if exists t | t in factors :: LastWordIs(h, t, Success) then Success
            else if (exists t | t in factors :: LastWordIs(h, t, Failure))
                    && (exists i | 0 <= i < |h| :: TypedIn(h[i]))
                    && (exists t | t in factors :: TakesKeys(t) && !HasWord(h, t)) then Verifying
            else if exists t | t in factors :: LastWordIs(h, t, Failure) then Failure
            else Verifying
  {
    WordsAre(h);
    assert KeyboardReported(h) <==> exists i | 0 <= i < |h| :: TypedIn(h[i]) by {
      if i :| 0 <= i < |h| && TypedIn(h[i]) {
        assert h[i] in h;
      }
      if r :| r in h && r.Counted() && IsKeyboard(r.type0) {
        var i :| 0 <= i < |h| && h[i] == r;
        assert TypedIn(h[i]);
      }
    }
    assert forall t :: TakesKeys(t) <==> IsKeyboard(t);
  }

  /** The factors that are typed in. */
  predicate TakesKeys(t: AuthType) {
    t !in {Fingerprint, FingerVein, Face, Iris, Custom}
  }

  predicate TypedIn(r: Report) {
    TakesKeys(r.type0) && r.status !in {Verifying, Prompt, Locked, Ended, Started}
  }

  // ---------- what a report does to the limits ----------

  /** The update of the limits by the report of a factor, status by status. */
  lemma OwnUpdatesExactly(t: AuthType, s: Status)
    requires !t.Unrecognised?
    ensures UpdateLimits(s, AuthTypeToFlag(t)) ==
            if s == Success then [Update(if t == Password then ResetAll else SucceedOne(t))]
            else if s in {Failure, Exception} then [Update(FailOne(t))] else []
    ensures UpdateLimits(s, FLAG_ALL) == if s == Success then [Update(ResetAll)] else []
  {
    FlagDeterminesType(t);
  }
}
