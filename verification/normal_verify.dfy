/**
  The controller that accepts any one of the factors offered
  (service/authenticate/session/normal_verify.go).
 */
module NormalVerifies {
  import opened AuthTypes
  import opened Collections
  import opened Controllers

  type Results = map<AuthType, Status>

  type Inputs = map<AuthType, bool>

  function StatusOf(latest: Option<Status>): Status {
    match latest
    case None => Unknown
    case Some(s) => s
  }

  /** The result map holds the latest counted status of every factor offered. */
  ghost predicate ResultsReflect(txs: seq<AuthType>, results: Results, h: seq<Report>) {
    && (forall t :: t in results <==> t in txs)
    && forall t | t in results :: results[t] == StatusOf(Latest(h, t))
  }

  /** The input map tells of every keyboard factor offered whether it has reported. */
  ghost predicate InputsReflect(txs: seq<AuthType>, inputs: Inputs, h: seq<Report>) {
    && (forall t | t in txs && IsKeyboard(t) :: t in inputs)
    && forall t | t in inputs :: t in txs && inputs[t] == Reported(h, t) && (inputs[t] || IsKeyboard(t))
  }

  /** A failure only settles the session once no keyboard factor is outstanding. */
  predicate Outstanding(hasInput: bool, inputs: Inputs) {
    hasInput && exists t | t in inputs :: !inputs[t]
  }

  lemma KeyboardStep(h: seq<Report>, r: Report)
    ensures KeyboardReported(h + [r]) <==> KeyboardReported(h) || (r.Counted() && IsKeyboard(r.type0))
  {
    if r.Counted() && IsKeyboard(r.type0) {
      assert r in h + [r];
    } else if KeyboardReported(h) {
      var k :| k in h && k.Counted() && IsKeyboard(k.type0);
      assert k in h + [r];
    }
  }

  lemma ResultsStep(txs: seq<AuthType>, results: Results, h: seq<Report>, r: Report)
    requires ResultsReflect(txs, results, h) && r.Counted()
    ensures ResultsReflect(txs, if r.type0 in results then results[r.type0 := r.status] else results, h + [r])
  {
    forall t {
      LatestStep(h, r, t);
    }
  }

  lemma InputsStep(txs: seq<AuthType>, inputs: Inputs, h: seq<Report>, r: Report)
    requires InputsReflect(txs, inputs, h) && r.Counted()
    ensures InputsReflect(txs, if r.type0 in txs then inputs[r.type0 := true] else inputs, h + [r])
  {
    forall t {
      LatestStep(h, r, t);
    }
  }

  lemma UncountedChangesNothing(txs: seq<AuthType>, results: Results, inputs: Inputs, h: seq<Report>, r: Report)
    requires ResultsReflect(txs, results, h) && InputsReflect(txs, inputs, h) && !r.Counted()
    ensures ResultsReflect(txs, results, h + [r]) && InputsReflect(txs, inputs, h + [r])
  {
    forall t {
      LatestStep(h, r, t);
    }
  }

  /** The verdict on the maps is the verdict on the history they stand for. */
  lemma VerdictOnMaps(txs: seq<AuthType>, results: Results, inputs: Inputs, hasInput: bool, h: seq<Report>)
    requires ResultsReflect(txs, results, h) && InputsReflect(txs, inputs, h)
    requires hasInput == KeyboardReported(h)
    ensures Single(txs).Verdict(h) ==
            if exists t | t in results :: results[t].Success? then Success
            else if (exists t | t in results :: results[t].Failure?) && !Outstanding(hasInput, inputs) then Failure
            else Verifying
  {
    assert forall t | t in results :: results[t].Success? <==> Passed(h, t);
    assert forall t | t in results :: results[t].Failure? <==> Latest(h, t) == Some(Failure);
    if t :| t in results && results[t].Success? {
      assert t in txs && Passed(h, t);
    } else {
      assert !exists t | t in txs :: Passed(h, t);
      assert (exists t | t in inputs :: !inputs[t]) <==> exists t | t in txs && IsKeyboard(t) :: !Reported(h, t);
      if t :| t in results && results[t].Failure? {
        assert t in txs && Latest(h, t) == Some(Failure);
      }
    }
  }

  class NormalVerify {
    /** The factors the session offers. */
    const txs: seq<AuthType>
    var txResultMap: Results
    var inputMap: Inputs
    var hasInput: bool
    /** Everything handed to the session: signals and limit updates. */
    var out: seq<Effect>
    ghost var history: seq<Report>

    ghost predicate Valid()
      reads this
    {
      && ResultsReflect(txs, txResultMap, history)
      && InputsReflect(txs, inputMap, history)
      && hasInput == KeyboardReported(history)
      && out == Single(txs).Transcript(history)
    }

    constructor (txs: seq<AuthType>)
      ensures this.txs == txs && txResultMap == map[] && inputMap == map[] && !hasInput && out == [] && history == []
    {
      this.txs := txs;
      txResultMap, inputMap, hasInput, out, history := map[], map[], false, [], [];
    }

    method InitResultMap()
      requires txResultMap == map[]
      modifies this`txResultMap
      ensures ResultsReflect(txs, txResultMap, [])
    {
      for i := 0 to |txs|
        invariant forall t :: t in txResultMap <==> t in txs[..i]
        invariant forall t | t in txResultMap :: txResultMap[t] == Unknown
      {
        assert txs[..i + 1] == txs[..i] + [txs[i]];
        txResultMap := txResultMap[txs[i] := Unknown];
      }
      assert txs[..|txs|] == txs;
    }

    method InitInputMap()
      requires inputMap == map[]
      modifies this`inputMap
      ensures InputsReflect(txs, inputMap, [])
    {
      for i := 0 to |txs|
        invariant forall t :: t in inputMap <==> t in txs[..i] && IsKeyboard(t)
        invariant forall t | t in inputMap :: !inputMap[t]
      {
        assert txs[..i + 1] == txs[..i] + [txs[i]];
        if AuthTypeToInputType(txs[i]) == Keyboard {
          inputMap := inputMap[txs[i] := false];
        }
      }
      assert txs[..|txs|] == txs;
    }

    method AddTxStatus(r: Report)
      requires ResultsReflect(txs, txResultMap, history) && InputsReflect(txs, inputMap, history)
      requires r.Counted()
      modifies this`txResultMap, this`inputMap
      ensures ResultsReflect(txs, txResultMap, history + [r]) && InputsReflect(txs, inputMap, history + [r])
    {
      ResultsStep(txs, txResultMap, history, r);
      InputsStep(txs, inputMap, history, r);
      if r.type0 in txResultMap {
        txResultMap := txResultMap[r.type0 := r.status];
        inputMap := inputMap[r.type0 := true];
      }
    }

    /** Once the keyboard has been used, its factors that have not reported hold a failure back. */
    method AnyOutstanding() returns (shouldIgnore: bool)
      ensures shouldIgnore == Outstanding(hasInput, inputMap)
    {
      shouldIgnore := false;
      if hasInput {
        var inputs := inputMap.Keys;
        while inputs != {}
          invariant inputs <= inputMap.Keys
          invariant shouldIgnore <==> exists t | t in inputMap && t !in inputs :: !inputMap[t]
        {
          var i :| i in inputs;
          inputs := inputs - {i};
          if !inputMap[i] {
            shouldIgnore := true;
          }
        }
      }
    }

    /** Both maps are walked in an arbitrary order, on which the verdict does not depend. */
    method AdjudgeFinalResult(ghost h: seq<Report>) returns (res: Status)
      requires ResultsReflect(txs, txResultMap, h) && InputsReflect(txs, inputMap, h)
      requires hasInput == KeyboardReported(h)
      ensures res == Single(txs).Verdict(h)
    {
      VerdictOnMaps(txs, txResultMap, inputMap, hasInput, h);
      res := Verifying;
      var rest := txResultMap.Keys;
      while rest != {}
        invariant rest <= txResultMap.Keys
        invariant forall t | t in txResultMap && t !in rest :: !txResultMap[t].Success?
        invariant res == if (exists t | t in txResultMap && t !in rest :: txResultMap[t].Failure?)
                            && !Outstanding(hasInput, inputMap) then Failure else Verifying
      {
        var t :| t in rest;
        rest := rest - {t};
        if txResultMap[t] == Success {
          return Success;
        } else if txResultMap[t] == Failure {
          var shouldIgnore := AnyOutstanding();
          if !shouldIgnore {
            res := Failure;
          }
        }
      }
    }

    /** One report taken from the queue. */
    method Handle(r: Report)
      requires Valid()
      modifies this`txResultMap, this`inputMap, this`hasInput, this`out, this`history
      ensures Valid() && history == old(history) + [r]
    {
      ghost var o, flag := out, AuthTypeToFlag(r.type0);
      KeyboardStep(history, r);
      out := out + [Emit(AuthTypeToFlag(r.type0), r.status)];
      if !ShouldIgnore(r.status) {
        out := out + UpdateLimits(r.status, AuthTypeToFlag(r.type0));
        AddTxStatus(r);
        if AuthTypeToInputType(r.type0) == Keyboard {
          hasInput := true;
        }
        var res := AdjudgeFinalResult(history + [r]);
        Regroup(o, [Emit(flag, r.status)], UpdateLimits(r.status, flag), [Emit(FLAG_ALL, res)],
            UpdateLimits(res, FLAG_ALL));
        if res == Success || res == Failure {
          out := out + [Emit(FLAG_ALL, res)];
          out := out + UpdateLimits(res, FLAG_ALL);
        }
        assert out == o + Response(r, res);
      } else {
        UncountedChangesNothing(txs, txResultMap, inputMap, history, r);
      }
      TranscriptStep(Single(txs), history, r);
      history := history + [r];
    }

    /** The first authenticate call, then the receive loop until the queue is closed. */
    method ListenResultCh(resultCh: seq<Report>)
      requires txResultMap == map[] && inputMap == map[] && !hasInput && out == [] && history == []
      modifies this
      ensures Valid() && history == resultCh
      ensures out == Single(txs).Transcript(resultCh)
    {
      InitResultMap();
      InitInputMap();
      for i := 0 to |resultCh|
        invariant Valid() && history == resultCh[..i]
      {
        assert resultCh[..i + 1] == resultCh[..i] + [resultCh[i]];
        Handle(resultCh[i]);
      }
    }
  }
}
