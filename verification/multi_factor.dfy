/**
  The controller that demands every configured factor
  (service/authenticate/session/multifactor_verify.go).
 */
module MultiFactor {
  import opened AuthTypes
  import opened Collections
  import opened Controllers

  datatype Res = Default | Failed | Passed

  function ResOf(latest: Option<Status>): Res {
    match latest
    case None => Default
    case Some(s) => if s.Success? then Res.Passed else Failed
  }

  function FlagsOf(factors: seq<AuthType>): seq<Flag> {
    if factors == [] then [] else FlagsOf(factors[..|factors| - 1]) + [AuthTypeToFlag(factors[|factors| - 1])]
  }

  lemma {:induction false} FlagsAt(factors: seq<AuthType>)
    ensures |FlagsOf(factors)| == |factors|
    ensures forall i | 0 <= i < |factors| :: FlagsOf(factors)[i] == AuthTypeToFlag(factors[i])
  {
    if factors != [] {
      FlagsAt(factors[..|factors| - 1]);
    }
  }

  /** A valid configuration lists supported types, none of them twice. */
  predicate Configurable(factors: seq<AuthType>) {
    Distinct(factors) && forall t | t in factors :: !t.Unrecognised?
  }

  function FlagSet(factors: seq<AuthType>): set<Flag> {
    Members(FlagsOf(factors))
  }

  function SetFlags(m: map<Flag, Res>): set<Flag> {
    set f | f in m && m[f] != Default
  }

  /** The verdict as a function of the result map alone. */
  function MapVerdict(m: map<Flag, Res>): Status {
    if exists f | f in m :: m[f] == Default then Verifying
    else if exists f | f in m :: m[f] == Failed then Failure
    else Success
  }

  lemma RecognisedFlagIsSingle(t: AuthType)
    requires !t.Unrecognised?
    ensures IsSingleFlag(AuthTypeToFlag(t))
  {
  }

  lemma FlagInjective(t: AuthType, u: AuthType)
    requires !u.Unrecognised? && AuthTypeToFlag(t) == AuthTypeToFlag(u)
    ensures t == u
  {
    RecognisedFlagIsSingle(u);
    FlagDeterminesType(t);
    FlagDeterminesType(u);
  }

  lemma FlagsAreSingle(factors: seq<AuthType>)
    requires Configurable(factors)
    ensures forall f | f in FlagsOf(factors) :: IsSingleFlag(f)
  {
    FlagsAt(factors);
    forall f | f in FlagsOf(factors) ensures IsSingleFlag(f) {
      var i :| 0 <= i < |factors| && FlagsOf(factors)[i] == f;
      assert factors[i] in factors;
      RecognisedFlagIsSingle(factors[i]);
    }
  }

  lemma FlagListed(factors: seq<AuthType>, t: AuthType)
    requires Configurable(factors)
    ensures t in factors <==> AuthTypeToFlag(t) in FlagsOf(factors)
  {
    FlagsAt(factors);
    if t in factors {
      var i :| 0 <= i < |factors| && factors[i] == t;
      assert FlagsOf(factors)[i] in FlagsOf(factors);
    } else if AuthTypeToFlag(t) in FlagsOf(factors) {
      var i :| 0 <= i < |factors| && FlagsOf(factors)[i] == AuthTypeToFlag(t);
      assert factors[i] in factors;
      FlagInjective(t, factors[i]);
    }
  }

  /** The bit test of setResult and clearResult. */
  predicate HasBit(t: AuthType, mask: Mask) {
    AuthTypeToFlag(t).bits & mask != 0
  }

  /** It holds exactly for the configured factors. */
  lemma MaskSelectsFactors(factors: seq<AuthType>, t: AuthType)
    requires Configurable(factors)
    ensures HasBit(t, MaskOf(FlagsOf(factors))) <==> t in factors
    ensures t in factors <==> AuthTypeToFlag(t) in FlagsOf(factors)
  {
    FlagListed(factors, t);
    if t.Unrecognised? {
      ZeroIntersectsNothing(MaskOf(FlagsOf(factors)));
    } else {
      FlagsAreSingle(factors);
      RecognisedFlagIsSingle(t);
      MaskMembership(AuthTypeToFlag(t), FlagsOf(factors));
    }
  }

  /** The mask has the bits of the configured factors and no other. */
  ghost predicate MaskFits(factors: seq<AuthType>, mask: Mask) {
    forall t :: HasBit(t, mask) <==> t in factors
  }

  lemma ConfiguredMaskFits(factors: seq<AuthType>)
    requires Configurable(factors)
    ensures MaskFits(factors, MaskOf(FlagsOf(factors)))
  {
    forall t ensures HasBit(t, MaskOf(FlagsOf(factors))) <==> t in factors {
      MaskSelectsFactors(factors, t);
    }
  }

  lemma FlagOfFactor(factors: seq<AuthType>, t: AuthType)
    requires Configurable(factors)
    ensures t in factors ==> AuthTypeToFlag(t) in FlagSet(factors)
  {
    FlagListed(factors, t);
  }

  lemma ZeroIntersectsNothing(m: Mask)
    ensures 0 & m == 0
  {
  }

  /** The configured flags are as many as the configured factors. */
  lemma FlagsAreDistinct(factors: seq<AuthType>)
    requires Configurable(factors)
    ensures Distinct(FlagsOf(factors)) && |FlagSet(factors)| == |factors|
  {
    FlagsAt(factors);
    forall i, j | 0 <= i < j < |factors| ensures FlagsOf(factors)[i] != FlagsOf(factors)[j] {
      assert factors[i] in factors && factors[j] in factors;
      if FlagsOf(factors)[i] == FlagsOf(factors)[j] {
        FlagInjective(factors[i], factors[j]);
      }
    }
    MembersSize(FlagsOf(factors));
  }

  lemma SetFlagsUpdate(m: map<Flag, Res>, f: Flag, r: Res)
    requires f in m
    ensures r == Default ==> SetFlags(m[f := r]) == SetFlags(m) - {f}
    ensures r != Default ==> SetFlags(m[f := r]) == SetFlags(m) + {f}
  {
    var n := m[f := r];
    assert n.Keys == m.Keys;
    assert forall g | g in m && g != f :: n[g] == m[g];
  }

  /** passNumber reaches the number of factors exactly when none is left unset. */
  lemma AllSetByCount(m: map<Flag, Res>)
    ensures |SetFlags(m)| <= |m|
    ensures |SetFlags(m)| == |m| <==> forall f | f in m :: m[f] != Default
  {
    assert SetFlags(m) <= m.Keys && |m.Keys| == |m|;
    SubsetSize(SetFlags(m), m.Keys);
    if forall f | f in m :: m[f] != Default {
      assert SetFlags(m) == m.Keys;
    } else {
      var f :| f in m && m[f] == Default;
      assert f in m.Keys && f !in SetFlags(m);
    }
  }

  /** The result map of a controller that has taken the history h. */
  ghost predicate Reflects(factors: seq<AuthType>, m: map<Flag, Res>, h: seq<Report>) {
    && m.Keys == FlagSet(factors)
    && forall t | t in factors :: AuthTypeToFlag(t) in m && m[AuthTypeToFlag(t)] == ResOf(Latest(h, t))
  }

  lemma EntryHasFactor(factors: seq<AuthType>, m: map<Flag, Res>, f: Flag) returns (t: AuthType)
    requires m.Keys == FlagSet(factors) && f in m
    ensures t in factors && AuthTypeToFlag(t) == f
  {
    FlagsAt(factors);
    var i :| 0 <= i < |factors| && FlagsOf(factors)[i] == f;
    t := factors[i];
  }

  /** The verdict on the map is the verdict on the history the map stands for. */
  lemma MapVerdictIsVerdict(factors: seq<AuthType>, m: map<Flag, Res>, h: seq<Report>)
    requires Reflects(factors, m, h)
    ensures MapVerdict(m) == Multi(factors).Verdict(h)
  {
    if f :| f in m && m[f] == Default {
      var t := EntryHasFactor(factors, m, f);
      assert !Reported(h, t) && !Controllers.Passed(h, t);
    } else if f :| f in m && m[f] == Failed {
      var t := EntryHasFactor(factors, m, f);
      assert !Controllers.Passed(h, t);
      assert forall u | u in factors :: m[AuthTypeToFlag(u)] != Default ==> Reported(h, u);
    } else {
      assert forall u | u in factors :: m[AuthTypeToFlag(u)] == Res.Passed ==> Controllers.Passed(h, u);
    }
  }

  /** A counted report changes the entry of its own factor and no other. */
  lemma ReflectsStep(factors: seq<AuthType>, m: map<Flag, Res>, h: seq<Report>, r: Report)
    requires Configurable(factors) && Reflects(factors, m, h)
    ensures Reflects(factors, if r.Counted() && r.type0 in factors
                              then m[AuthTypeToFlag(r.type0) := if r.status.Success? then Res.Passed else Failed]
                              else m, h + [r])
  {
    var f := AuthTypeToFlag(r.type0);
    forall t | t in factors
      ensures r.type0 in factors && f == AuthTypeToFlag(t) ==> t == r.type0
    {
      if r.type0 in factors && f == AuthTypeToFlag(t) {
        FlagInjective(t, r.type0);
      }
    }
    forall t {
      LatestStep(h, r, t);
    }
  }

  /** Writing one entry moves the count of set entries by what the counter is moved. */
  lemma CountAfterUpdate(m: map<Flag, Res>, f: Flag, r: Res)
    requires f in m
    ensures m[f := r].Keys == m.Keys
    ensures |SetFlags(m[f := r])| ==
            |SetFlags(m)| - (if m[f] == Default then 0 else 1) + (if r == Default then 0 else 1)
  {
    SetFlagsUpdate(m, f, r);
    var set0 := SetFlags(m);
    assert f in set0 <==> m[f] != Default;
    assert f !in set0 ==> set0 - {f} == set0;
    assert f in set0 ==> set0 + {f} == set0;
    assert forall g :: g in m[f := r] <==> g in m;
  }

  lemma UnsetMap(factors: seq<AuthType>, m: map<Flag, Res>)
    requires Configurable(factors)
    requires m.Keys == FlagSet(factors)
    requires forall f | f in m :: m[f] == Default
    ensures Reflects(factors, m, [])
    ensures |m| == |factors| == |FlagsOf(factors)| && SetFlags(m) == {}
  {
    FlagsAreDistinct(factors);
    FlagsAt(factors);
    forall t | t in factors ensures AuthTypeToFlag(t) in m {
      var i :| 0 <= i < |factors| && factors[i] == t;
      assert FlagsOf(factors)[i] in FlagsOf(factors);
    }
  }

  lemma NonEmpty(s: set<Flag>)
    requires s != {}
    ensures exists f: Flag :: f in s
  {
  }

  /** The walk over the map takes the entries in an arbitrary order. */
  method WalkResults(m: map<Flag, Res>) returns (res: Status)
    requires forall f | f in m :: m[f] != Default
    ensures res == MapVerdict(m)
  {
    var rest := m.Keys;
    while rest != {}
      invariant rest <= m.Keys
      invariant forall f | f in m && f !in rest :: m[f] == Res.Passed
    {
      NonEmpty(rest);
      var f: Flag :| f in rest;
      if m[f] == Failed {
        return Failure;
      } else if m[f] == Default {
        return Verifying;
      }
      rest := rest - {f};
    }
    return Success;
  }

  // ---------- an aggregate failure although no factor has failed ----------

  ghost predicate Unfailed(h: seq<Report>) {
    forall r | r in h :: !r.status.Failure?
  }

  /** The latest counted report of the factor is neither a success nor a failure. */
  predicate Unsettled(h: seq<Report>, t: AuthType) {
    Latest(h, t).Some? && !Latest(h, t).value.Success? && !Latest(h, t).value.Failure?
  }

  lemma {:induction false} LatestIsReported(h: seq<Report>, t: AuthType)
    requires Latest(h, t).Some?
    ensures Report(t, Latest(h, t).value) in h
  {
    var init, last := h[..|h| - 1], h[|h| - 1];
    assert h == init + [last];
    if !(last.type0 == t && last.Counted()) {
      LatestIsReported(init, t);
    }
  }

  lemma VerdictWithoutFailure(factors: seq<AuthType>, h: seq<Report>)
    requires Unfailed(h)
    ensures Multi(factors).Verdict(h).Failure? <==>
            && (forall t | t in factors :: Reported(h, t))
            && exists t | t in factors :: Unsettled(h, t)
  {
    forall t | t in factors && Latest(h, t).Some? ensures Latest(h, t).value.Success? || Unsettled(h, t) {
      LatestIsReported(h, t);
    }
    if t :| t in factors && !Controllers.Passed(h, t) {
      assert Reported(h, t) ==> Unsettled(h, t);
    }
    if t :| t in factors && Unsettled(h, t) {
      assert !Controllers.Passed(h, t);
    }
  }

  lemma FailureAnnouncedExactly(factors: seq<AuthType>, h: seq<Report>, r: Report)
    ensures Emit(FLAG_ALL, Failure) in Multi(factors).Respond(h, r)
            <==> r.Counted() && Multi(factors).Verdict(h + [r]).Failure?
  {
    FlagDeterminesType(r.type0);
  }

  /** The first n reports ended in one that counted, all factors had reported and some were not settled. */
  ghost predicate CutShort(factors: seq<AuthType>, h: seq<Report>, n: int) {
    && 0 < n <= |h| && h[n - 1].Counted()
    && (forall t | t in factors :: Reported(h[..n], t))
    && exists t | t in factors :: Unsettled(h[..n], t)
  }

  /**
    In a session in which no factor fails, an aggregate failure is announced exactly when some
    factor's latest counted report is neither success nor failure, such as an error or the news
    that it is unlocked, at a moment when all factors have reported and one of them just did.
   */
  lemma {:induction false} FailureWithoutFailureExactly(factors: seq<AuthType>, h: seq<Report>)
    requires Unfailed(h)
    ensures Emit(FLAG_ALL, Failure) in Multi(factors).Transcript(h) <==> exists n :: CutShort(factors, h, n)
  {
    if h != [] {
      var init, last := h[..|h| - 1], h[|h| - 1];
      assert h == init + [last] && h[..|h|] == h;
      FailureWithoutFailureExactly(factors, init);
      FailureAnnouncedExactly(factors, init, last);
      VerdictWithoutFailure(factors, h);
      CutShortGrows(factors, init, last, h);
    }
  }

  lemma CutShortGrows(factors: seq<AuthType>, init: seq<Report>, last: Report, h: seq<Report>)
    requires h == init + [last]
    ensures (exists n :: CutShort(factors, h, n))
            <==> (exists n :: CutShort(factors, init, n)) || CutShort(factors, h, |h|)
  {
    forall n | 0 < n < |h| ensures CutShort(factors, h, n) <==> CutShort(factors, init, n) {
      assert init[..n] == h[..n];
    }
    if n :| CutShort(factors, init, n) {
      assert CutShort(factors, h, n);
    }
    if n :| CutShort(factors, h, n) {
      assert n < |h| ==> CutShort(factors, init, n);
    }
  }

  /** The password passes, which unlocks the finger: the news of that fails the session. */
  lemma UnlockingFailsSession()
    ensures var h := [Report(Password, Success), Report(Fingerprint, Unlocked)];
            Unfailed(h) && Emit(FLAG_ALL, Failure) in Multi([Password, Fingerprint]).Transcript(h)
  {
    var h := [Report(Password, Success), Report(Fingerprint, Unlocked)];
    assert h[..1] == [Report(Password, Success)] && h[..2] == h;
    assert Latest(h, Fingerprint) == Some(Unlocked) && Latest(h[..1], Password) == Some(Success);
    assert Latest(h, Password) == Some(Success);
    assert Unsettled(h, Fingerprint) && Fingerprint in [Password, Fingerprint];
    assert CutShort([Password, Fingerprint], h, 2);
    FailureWithoutFailureExactly([Password, Fingerprint], h);
  }

  class MultiFactorVerify {
    /** The factors the configuration demands. */
    const factors: seq<AuthType>
    var mfaAuthFlags: Mask
    var resultMap: map<Flag, Res>
    var passNumber: int
    var expectPassNumber: int
    /** Everything handed to the session: signals and limit updates. */
    var out: seq<Effect>
    ghost var history: seq<Report>

    /** The counters agree with the map, and the mask selects exactly its keys. */
    ghost predicate Tallied()
      reads this
    {
      && Configurable(factors)
      && MaskFits(factors, mfaAuthFlags)
      && resultMap.Keys == FlagSet(factors)
      && passNumber == |SetFlags(resultMap)|
      && expectPassNumber == |resultMap|
    }

    ghost predicate Valid()
      reads this
    {
      && Tallied()
      && Reflects(factors, resultMap, history)
      && out == Multi(factors).Transcript(history)
    }

    constructor (factors: seq<AuthType>)
      ensures this.factors == factors && resultMap == map[] && passNumber == 0 && out == [] && history == []
    {
      this.factors := factors;
      resultMap, passNumber, expectPassNumber, out, history := map[], 0, 0, [], [];
      mfaAuthFlags := 0;
    }

    method GetAuthTypeList() returns (list: seq<Flag>)
      ensures list == FlagsOf(factors)
    {
      list := [];
      for i := 0 to |factors|
        invariant list == FlagsOf(factors[..i])
      {
        assert factors[..i + 1][..i] == factors[..i];
        list := list + [AuthTypeToFlag(factors[i])];
      }
      assert factors[..|factors|] == factors;
    }

    method CheckTx() returns (flag: Mask)
      modifies this`mfaAuthFlags
      ensures flag == mfaAuthFlags == MaskOf(FlagsOf(factors))
    {
      var authList := GetAuthTypeList();
      flag := 0;
      for i := 0 to |authList|
        invariant flag == MaskOf(authList[..i])
      {
        MaskStep(authList, i);
        flag := flag | authList[i].bits;
      }
      assert authList[..|authList|] == authList;
      mfaAuthFlags := flag;
    }

    method SetExpectResult()
      requires Configurable(factors) && mfaAuthFlags == MaskOf(FlagsOf(factors))
      requires resultMap == map[] && passNumber == 0 && out == [] && history == []
      modifies this`resultMap, this`expectPassNumber
      ensures Valid()
    {
      ConfiguredMaskFits(factors);
      var authList := GetAuthTypeList();
      for i := 0 to |authList|
        invariant resultMap.Keys == set f | f in authList[..i]
        invariant forall f | f in resultMap :: resultMap[f] == Default
      {
        assert authList[..i + 1] == authList[..i] + [authList[i]];
        resultMap := resultMap[authList[i] := Default];
      }
      expectPassNumber := |authList|;
      assert authList[..|authList|] == authList;
      UnsetMap(factors, resultMap);
    }

    /** The map entry is only touched for configured factors, for which it exists. */
    method SetResult(type0: AuthType, result: bool)
      requires Tallied()
      modifies this`resultMap, this`passNumber
      ensures Tallied()
      ensures resultMap == if type0 in factors
                           then old(resultMap)[AuthTypeToFlag(type0) := if result then Res.Passed else Failed]
                           else old(resultMap)
    {
      var t := AuthTypeToFlag(type0);
      FlagOfFactor(factors, type0);
      if HasBit(type0, mfaAuthFlags) {
        CountAfterUpdate(resultMap, t, if result then Res.Passed else Failed);
        if resultMap[t] == Default {
          passNumber := passNumber + 1;
        }
        if result {
          resultMap := resultMap[t := Res.Passed];
        } else {
          resultMap := resultMap[t := Failed];
        }
      }
    }

    method ClearResult(type0: AuthType)
      requires Tallied()
      modifies this`resultMap, this`passNumber
      ensures Tallied()
      ensures resultMap == if type0 in factors then old(resultMap)[AuthTypeToFlag(type0) := Default] else old(resultMap)
    {
      var t := AuthTypeToFlag(type0);
      FlagOfFactor(factors, type0);
      if HasBit(type0, mfaAuthFlags) {
        CountAfterUpdate(resultMap, t, Default);
        if resultMap[t] != Default {
          passNumber := passNumber - 1;
        }
        resultMap := resultMap[t := Default];
      }
    }

    /** The map is walked in an arbitrary order, on which the verdict does not depend. */
    method GetVerifyResult() returns (res: Status)
      requires Tallied()
      ensures res == MapVerdict(resultMap)
    {
      AllSetByCount(resultMap);
      if passNumber < expectPassNumber {
        return Verifying;
      }
      res := WalkResults(resultMap);
    }

    /** The two calls that follow a counted report. */
    method Judge(r: Report) returns (res: Status)
      requires Tallied() && Reflects(factors, resultMap, history) && r.Counted()
      modifies this`resultMap, this`passNumber
      ensures Tallied() && Reflects(factors, resultMap, history + [r])
      ensures res == Multi(factors).Verdict(history + [r])
    {
      ReflectsStep(factors, resultMap, history, r);
      SetResult(r.type0, r.status == Success);
      res := GetVerifyResult();
      MapVerdictIsVerdict(factors, resultMap, history + [r]);
    }

    /** One report taken from the queue. */
    method Handle(r: Report)
      requires Valid()
      modifies this`resultMap, this`passNumber, this`out, this`history
      ensures Valid() && history == old(history) + [r]
    {
      ghost var o, flag := out, AuthTypeToFlag(r.type0);
      out := out + [Emit(AuthTypeToFlag(r.type0), r.status)];
      if !ShouldIgnore(r.status) {
        out := out + UpdateLimits(r.status, AuthTypeToFlag(r.type0));
        var res := Judge(r);
        Regroup(o, [Emit(flag, r.status)], UpdateLimits(r.status, flag), [Emit(FLAG_ALL, res)],
            UpdateLimits(res, FLAG_ALL));
        if res == Failure || res == Success {
          out := out + [Emit(FLAG_ALL, res)];
          out := out + UpdateLimits(res, FLAG_ALL);
        }
        assert out == o + Response(r, res);
      } else {
        ReflectsStep(factors, resultMap, history, r);
      }
      TranscriptStep(Multi(factors), history, r);
      history := history + [r];
    }

    /** The receive loop, until the queue is closed. */
    method ListenResultCh(resultCh: seq<Report>)
      requires Configurable(factors) && mfaAuthFlags == MaskOf(FlagsOf(factors))
      requires resultMap == map[] && passNumber == 0 && out == [] && history == []
      modifies this
      ensures Valid() && history == resultCh
      ensures out == Multi(factors).Transcript(resultCh)
    {
      SetExpectResult();
      for i := 0 to |resultCh|
        invariant Valid() && history == resultCh[..i]
      {
        assert resultCh[..i + 1] == resultCh[..i] + [resultCh[i]];
        Handle(resultCh[i]);
      }
    }
  }
}
