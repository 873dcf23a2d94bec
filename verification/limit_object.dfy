/** The limit object of service/authenticate/limit.go. */
module LimitObjects {
  import opened AuthTypes
  import opened Limits
  import opened LimitTables

  /** One limit, updated in place; the daemon shares references to these. */
  class Limit {
    const type0: AuthType
    /** The cell of the table this object was made for. */
    ghost const home: Key
    const config: LimitConfig
    var numFailures: int
    var lockAt: Stamp
    var unlockSecs: int

    constructor (type0: AuthType, config: LimitConfig, ghost user: UserKey)
      ensures this.type0 == type0 && this.config == config && AsRecord() == FreshRecord(config)
      ensures home == Key(user, type0)
    {
      this.type0, this.config, home := type0, config, Key(user, type0);
      numFailures, lockAt, unlockSecs := 0, Never, config.unlockSecs;
    }

    function AsRecord(): Record
      reads this
    {
      Record(numFailures, lockAt, unlockSecs)
    }

    method Reset()
      modifies this
      ensures AsRecord() == ResetRecord(config, old(AsRecord()))
    {
      lockAt := Never;
      if config.dynamicLimit {
        unlockSecs := 0;
      } else {
        numFailures := 0;
      }
    }

    /** The body of the loop that resets all limits of a user. */
    method Clear()
      modifies this
      ensures AsRecord() == ClearRecord(config, old(AsRecord()))
    {
      numFailures := 0;
      Reset();
    }

    /** Takes over a saved state. */
    method Restore(numFailures: int, lockAt: Stamp)
      modifies this
      ensures AsRecord() == Record(numFailures, lockAt, old(unlockSecs))
    {
      this.lockAt := lockAt;
      this.numFailures := numFailures;
    }

    method TryReset(now: int)
      modifies this
      ensures AsRecord() == TryResetRecord(config, old(AsRecord()), now)
    {
      if unlockSecs < 0 {
        return;
      }
      if numFailures >= config.maxTries && config.maxTries > 0 {
        var unlockDuration := SECOND * unlockSecs;
        if lockAt.Never? || now - lockAt.ns > unlockDuration {
          Reset();
        }
      }
    }

    method GetDynamicLimitTime() returns (secs: int)
      requires |config.dynamicUnlockSecs| > 0
      ensures secs == config.DynamicPeriod(numFailures)
      ensures if numFailures < config.maxTries then secs == 0 else secs in config.dynamicUnlockSecs
      ensures numFailures - config.maxTries >= |config.dynamicUnlockSecs| ==>
                secs == config.dynamicUnlockSecs[|config.dynamicUnlockSecs| - 1]
    {
      var failNum := numFailures - config.maxTries;
      if failNum < 0 {
        return 0;
      }
      if failNum >= |config.dynamicUnlockSecs| {
        return config.dynamicUnlockSecs[|config.dynamicUnlockSecs| - 1];
      }
      return config.dynamicUnlockSecs[failNum];
    }

    /** A query; it may tidy the record but never changes the ledger the record stands for. */
    method Allow(now: int) returns (verdict: Verdict)
      requires config.Usable()
      modifies this
      ensures AsRecord() == AllowRecord(config, old(AsRecord()), now).0
      ensures verdict == AllowRecord(config, old(AsRecord()), now).1
      ensures forall l, t | t <= now && Represents(config, old(AsRecord()), l, t) ::
                Represents(config, AsRecord(), l, now) && verdict == LedgerVerdict(config, l, now)
    {
      ghost var before := AsRecord();
      if config.maxTries == 0 {
        return Allowed;
      }
      if config.dynamicLimit {
        unlockSecs := GetDynamicLimitTime();
      }
      TryReset(now);
      if numFailures < config.maxTries || unlockSecs == 0 {
        verdict := Allowed;
      } else {
        verdict := Denied(lockAt, unlockSecs);
      }
      forall l, t | t <= now && Represents(config, before, l, t)
        ensures Represents(config, AsRecord(), l, now) && verdict == LedgerVerdict(config, l, now)
      {
        StepRefines(config, before, l, t, Queried(now));
        QueryRefines(config, before, l, t, now);
      }
    }

    method Fail(now: int)
      requires config.Usable()
      modifies this
      ensures AsRecord() == FailRecord(config, old(AsRecord()), now)
      ensures forall l, t | t <= now && Represents(config, old(AsRecord()), l, t) ::
                Represents(config, AsRecord(), LedgerStep(config, l, Failed(now)), now)
    {
      ghost var before := AsRecord();
      if config.maxTries == 0 {
        return;
      }
      TryReset(now);
      numFailures := numFailures + 1;
      if numFailures >= config.maxTries {
        lockAt := At(now);
      }
      forall l, t | t <= now && Represents(config, before, l, t)
        ensures Represents(config, AsRecord(), LedgerStep(config, l, Failed(now)), now)
      {
        StepRefines(config, before, l, t, Failed(now));
      }
    }
  }

  ghost predicate IsNew(l: Limit, p: Key, c: LimitConfig)
    reads l
  {
    l.home == p && l.type0 == p.type0 && l.config == c && l.AsRecord() == FreshRecord(c)
  }
}
