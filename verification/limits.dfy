/**
  The lock-out rule of one authentication factor (service/authenticate/limit.go).

  The daemon keeps a small record per limit and lets locks expire lazily: nothing
  happens when a lock period runs out, the record is only tidied the next time some
  call, even a read-only query, looks at it. The record functions below follow that
  code. The Ledger is the meaning: it is a function of what happened (failures,
  successes, full resets) in which queries leave no trace and expiry needs no call.
 */
module Limits {
  /** time.Time; Never is the zero time the code uses for "no lock". */
  datatype Stamp = Never | At(ns: int)

  const SECOND := 1_000_000_000

  /** maxTries is never negative: loading the configuration raises it to 0. */
  datatype LimitConfig = LimitConfig(
    maxTries: nat,
    unlockSecs: int,
    dynamicLimit: bool,
    dynamicUnlockSecs: seq<int>)
  {
    /** The clamped lookup of DynamicPeriod indexes the table, so it must not be empty. */
    predicate Usable() {
      dynamicLimit ==> |dynamicUnlockSecs| > 0
    }

    function DynamicPeriod(failures: int): int
      requires |dynamicUnlockSecs| > 0
    {
      var failNum := failures - maxTries;
      if failNum < 0 then 0
      else if failNum >= |dynamicUnlockSecs| then dynamicUnlockSecs[|dynamicUnlockSecs| - 1]
      else dynamicUnlockSecs[failNum]
    }

    /** Seconds a lock holds after this many failures: 0 never locks, negative locks for good. */
    function Period(failures: int): int
      requires Usable()
    {
      if dynamicLimit then DynamicPeriod(failures) else unlockSecs
    }

    /** The periods that lock at all never get shorter along the table. */
    ghost predicate Escalating() {
      forall i, j | 0 <= i <= j < |dynamicUnlockSecs| && dynamicUnlockSecs[i] != 0 && dynamicUnlockSecs[j] != 0 ::
        NoLonger(dynamicUnlockSecs[i], dynamicUnlockSecs[j])
    }
  }

  /** A negative period locks for good, so no period is longer. */
  predicate NoLonger(p: int, q: int) {
    q < 0 || 0 <= p <= q
  }

  /** The zero time lies further back than any lock period. */
  predicate Exceeded(lockAt: Stamp, secs: int, now: int) {
    lockAt.Never? || now - lockAt.ns > SECOND * secs
  }

  const MAX_INT64 := 0x7FFF_FFFF_FFFF_FFFF

  function Wrap64(n: int): int {
    (n + 0x8000_0000_0000_0000) % 0x1_0000_0000_0000_0000 - 0x8000_0000_0000_0000
  }

  /** UnixNano; for the zero time, in the year 1, the 64-bit product has wrapped. */
  function UnixNano(s: Stamp): int {
    if s.Never? then Wrap64(-62_135_596_800 * SECOND) else s.ns
  }

  /** The comparison as the code makes it, in 64-bit nanoseconds. */
  predicate ExceededInt64(lockAt: Stamp, secs: int, now: int) {
    Wrap64(now - UnixNano(lockAt)) > Wrap64(secs * SECOND)
  }

  /** What the year 1 is short of 1970 in nanoseconds, after the 64-bit product has wrapped. */
  const ZERO_TIME_GAP := 6_795_364_578_871_345_152

  /**
    When the code's comparison is the ideal one, for every period that is not negative. While
    the period fits into 64-bit nanoseconds (292 years) it is so for every lock since 1970;
    for the zero time until 9 December 2046, and for a period shorter than the gap. A longer
    period wraps, and a lock is then over as soon as the wrapped period is.
   */
  lemma SixtyFourBitTimeExactly(lockAt: Stamp, secs: int, now: int)
    requires 0 <= now <= MAX_INT64 && 0 <= secs
    requires lockAt.At? ==> 0 <= lockAt.ns <= MAX_INT64
    ensures ExceededInt64(lockAt, secs, now) == Exceeded(lockAt, secs, now)
            <==> if secs * SECOND <= MAX_INT64 then
                   lockAt.At? || (now <= 2_428_007_457_983_430_655 && secs * SECOND < now + ZERO_TIME_GAP)
                 else if lockAt.At? then now - lockAt.ns <= Wrap64(secs * SECOND)
                 else Wrap64(now + ZERO_TIME_GAP) > Wrap64(secs * SECOND)
  {
    if secs * SECOND <= MAX_INT64 {
      assert Wrap64(secs * SECOND) == secs * SECOND;
    }
    if lockAt.Never? {
      assert UnixNano(lockAt) == -ZERO_TIME_GAP;
    } else {
      assert Wrap64(now - lockAt.ns) == now - lockAt.ns;
    }
  }

  // ---------- the record the daemon keeps, and its lazy updates ----------

  /** The fields of a limit that change. */
  datatype Record = Record(numFailures: int, lockAt: Stamp, unlockSecs: int)

  /** A refusal carries the unlock time as the sum the code returns: lockAt plus unlockSecs. */
  datatype Verdict = Allowed | Denied(lockAt: Stamp, unlockSecs: int)

  function FreshRecord(c: LimitConfig): Record {
    Record(0, Never, c.unlockSecs)
  }

  function ResetRecord(c: LimitConfig, r: Record): Record {
    if c.dynamicLimit then r.(lockAt := Never, unlockSecs := 0) else r.(lockAt := Never, numFailures := 0)
  }

  /** What a full reset of a user does to each limit. */
  function ClearRecord(c: LimitConfig, r: Record): Record {
    ResetRecord(c, r.(numFailures := 0))
  }

  function TryResetRecord(c: LimitConfig, r: Record, now: int): Record {
    if r.unlockSecs < 0 then r
    else if r.numFailures >= c.maxTries && c.maxTries > 0 && Exceeded(r.lockAt, r.unlockSecs, now)
    then ResetRecord(c, r)
    else r
  }

  function AllowRecord(c: LimitConfig, r: Record, now: int): (Record, Verdict)
    requires c.Usable()
  {
    if c.maxTries == 0 then (r, Allowed)
    else
      var r1 := if c.dynamicLimit then r.(unlockSecs := c.DynamicPeriod(r.numFailures)) else r;
      var r2 := TryResetRecord(c, r1, now);
      if r2.numFailures < c.maxTries then (r2, Allowed)
      else if r2.unlockSecs == 0 then (r2, Allowed)
      else (r2, Denied(r2.lockAt, r2.unlockSecs))
  }

  function FailRecord(c: LimitConfig, r: Record, now: int): Record {
    if c.maxTries == 0 then r
    else
      var r1 := TryResetRecord(c, r, now);
      var n := r1.numFailures + 1;
      r1.(numFailures := n, lockAt := if n >= c.maxTries then At(now) else r1.lockAt)
  }

  /** What GetLimits publishes about one limit. */
  datatype Export = Export(unlockSecs: int, numFailures: int, verdict: Verdict)

  function ExportRecord(c: LimitConfig, r: Record, now: int): Export
    requires c.Usable()
  {
    var (r1, v) := AllowRecord(c, r, now);
    Export(r1.unlockSecs, r1.numFailures, v)
  }

  /** Only the failure count and the lock time are saved; the rest comes back from the configuration. */
  function RestartRecord(c: LimitConfig, r: Record): Record {
    Record(r.numFailures, r.lockAt, c.unlockSecs)
  }

  // ---------- runs ----------

  datatype Event =
    | Failed(at: int)
    | Queried(at: int)
    | Succeeded(at: int)
    | FullyReset(at: int)

  function RecordStep(c: LimitConfig, r: Record, e: Event): Record
    requires c.Usable()
  {
    match e
    case Failed(now) => FailRecord(c, r, now)
    case Queried(now) => AllowRecord(c, r, now).0
    case Succeeded(_) => ResetRecord(c, r)
    case FullyReset(_) => ClearRecord(c, r)
  }

  function RecordRun(c: LimitConfig, r: Record, h: seq<Event>): Record
    requires c.Usable()
  {
    if h == [] then r else RecordStep(c, RecordRun(c, r, h[..|h| - 1]), h[|h| - 1])
  }

  /** Events happen at non-decreasing times between start and now. */
  ghost predicate ClockMonotone(start: int, h: seq<Event>, now: int) {
    && start <= now
    && (forall i | 0 <= i < |h| :: start <= h[i].at <= now)
    && (forall i, j | 0 <= i <= j < |h| :: h[i].at <= h[j].at)
  }

  // ---------- the meaning ----------

  datatype Ledger = Ledger(failures: int, lockedAt: Stamp)

  /** The failures have reached the number at which attempts are refused. */
  predicate Engaged(c: LimitConfig, l: Ledger) {
    0 < c.maxTries <= l.failures
  }

  /** The lock had a definite period and that period is over. */
  predicate Lapsed(c: LimitConfig, l: Ledger, now: int)
    requires c.Usable()
  {
    Engaged(c, l) && c.Period(l.failures) >= 0 && Exceeded(l.lockedAt, c.Period(l.failures), now)
  }

  /** Attempts are refused: for good, or until the current period since the last lock is over. */
  predicate Denies(c: LimitConfig, l: Ledger, now: int)
    requires c.Usable()
  {
    && Engaged(c, l)
    && (c.Period(l.failures) < 0 || (c.Period(l.failures) > 0 && !Exceeded(l.lockedAt, c.Period(l.failures), now)))
  }

  /** A failure counts on from zero when a fixed lock has lapsed, otherwise from where it was. */
  function LedgerStep(c: LimitConfig, l: Ledger, e: Event): Ledger
    requires c.Usable()
  {
    match e
    case Failed(now) =>
      if c.maxTries == 0 then l
      else
        var n := 1 + if !c.dynamicLimit && Lapsed(c, l, now) then 0 else l.failures;
        Ledger(n, if n >= c.maxTries then At(now) else Never)
    case Queried(_) => l
    case Succeeded(_) => Ledger(if c.dynamicLimit then l.failures else 0, Never)
    case FullyReset(_) => Ledger(0, Never)
  }

  function Replay(c: LimitConfig, l: Ledger, h: seq<Event>): Ledger
    requires c.Usable()
  {
    if h == [] then l else LedgerStep(c, Replay(c, l, h[..|h| - 1]), h[|h| - 1])
  }

  function LedgerVerdict(c: LimitConfig, l: Ledger, now: int): Verdict
    requires c.Usable()
  {
    if Denies(c, l, now) then Denied(l.lockedAt, c.Period(l.failures)) else Allowed
  }

  /** The record a query publishes, read off the ledger; requires that the limit is in force. */
  function LedgerExport(c: LimitConfig, l: Ledger, now: int): Export
    requires c.Usable()
  {
    Export(
      if c.dynamicLimit then (if Lapsed(c, l, now) then 0 else c.Period(l.failures)) else c.unlockSecs,
      if !c.dynamicLimit && Lapsed(c, l, now) then 0 else l.failures,
      LedgerVerdict(c, l, now))
  }

  // ---------- the lazy record refines the ledger ----------

  /** unlockSecs of a limit that is not dynamic is never written after construction. */
  predicate Configured(c: LimitConfig, r: Record) {
    c.dynamicLimit || r.unlockSecs == c.unlockSecs
  }

  /**
    The record stands for the ledger at every time from t on: either they agree, or
    the lock has lapsed and the record has already been tidied.
   */
  predicate Represents(c: LimitConfig, r: Record, l: Ledger, t: int)
    requires c.Usable()
  {
    && Configured(c, r)
    && ((r.numFailures == l.failures && (Engaged(c, l) ==> r.lockAt == l.lockedAt))
        || (Lapsed(c, l, t)
            && if c.dynamicLimit then r.numFailures == l.failures && r.lockAt.Never? else r.numFailures == 0))
  }

  lemma StepRefines(c: LimitConfig, r: Record, l: Ledger, t: int, e: Event)
    requires c.Usable() && Represents(c, r, l, t) && t <= e.at
    ensures Represents(c, RecordStep(c, r, e), LedgerStep(c, l, e), e.at)
  {
  }

  lemma QueryRefines(c: LimitConfig, r: Record, l: Ledger, t: int, now: int)
    requires c.Usable() && Represents(c, r, l, t) && t <= now
    ensures AllowRecord(c, r, now).1 == LedgerVerdict(c, l, now)
    ensures ExportRecord(c, r, now).numFailures == LedgerExport(c, l, now).numFailures
    ensures ExportRecord(c, r, now).verdict == LedgerExport(c, l, now).verdict
    ensures c.maxTries > 0 || !c.dynamicLimit ==> ExportRecord(c, r, now) == LedgerExport(c, l, now)
  {
  }

  lemma {:induction false} RunRefines(c: LimitConfig, r: Record, l: Ledger, start: int, h: seq<Event>, now: int)
    requires c.Usable() && Represents(c, r, l, start) && ClockMonotone(start, h, now)
    ensures Represents(c, RecordRun(c, r, h), Replay(c, l, h), now)
  {
    if h != [] {
      var last := h[|h| - 1];
      RunRefines(c, r, l, start, h[..|h| - 1], last.at);
      StepRefines(c, RecordRun(c, r, h[..|h| - 1]), Replay(c, l, h[..|h| - 1]), last.at, last);
    }
  }

  /** What a record stands for when the daemon has just built or loaded it. */
  function OpeningLedger(r: Record): Ledger {
    Ledger(r.numFailures, r.lockAt)
  }

  /** A success or a full reset has happened. */
  predicate Lifted(h: seq<Event>) {
    exists e | e in h :: e.Succeeded? || e.FullyReset?
  }

  lemma LiftedStep(h: seq<Event>)
    requires h != []
    ensures Lifted(h) <==> Lifted(h[..|h| - 1]) || h[|h| - 1].Succeeded? || h[|h| - 1].FullyReset?
  {
    assert h == h[..|h| - 1] + [h[|h| - 1]];
  }

  /** The period a dynamic limit that is not in force shows: the opening one until it is first lifted. */
  function IdlePeriod(opening: int, h: seq<Event>): int {
    if Lifted(h) then 0 else opening
  }

  lemma {:induction false} IdlePeriodIs(c: LimitConfig, r: Record, h: seq<Event>)
    requires c.Usable() && c.maxTries == 0 && c.dynamicLimit
    ensures RecordRun(c, r, h).unlockSecs == IdlePeriod(r.unlockSecs, h)
  {
    if h != [] {
      IdlePeriodIs(c, r, h[..|h| - 1]);
      LiftedStep(h);
    }
  }

  /** What is published after the history h: the ledger's record, or that of an idle dynamic limit. */
  function ExportOfHistory(c: LimitConfig, r: Record, h: seq<Event>, now: int): Export
    requires c.Usable()
  {
    var l := Replay(c, OpeningLedger(r), h);
    if c.maxTries > 0 || !c.dynamicLimit then LedgerExport(c, l, now)
    else Export(IdlePeriod(r.unlockSecs, h), l.failures, Allowed)
  }

  /**
    On every run of a limit, attempts are refused exactly when the history says so, and
    the published record is a function of the history, although the daemon resets locks
    lazily and also from read-only queries.
   */
  lemma VerdictOfHistory(c: LimitConfig, r: Record, start: int, h: seq<Event>, now: int)
    requires c.Usable() && Configured(c, r) && ClockMonotone(start, h, now)
    ensures var l := Replay(c, OpeningLedger(r), h);
            && (AllowRecord(c, RecordRun(c, r, h), now).1.Denied? <==> Denies(c, l, now))
            && AllowRecord(c, RecordRun(c, r, h), now).1 == LedgerVerdict(c, l, now)
            && ExportRecord(c, RecordRun(c, r, h), now) == ExportOfHistory(c, r, h, now)
  {
    RunRefines(c, r, OpeningLedger(r), start, h, now);
    QueryRefines(c, RecordRun(c, r, h), Replay(c, OpeningLedger(r), h), now, now);
    if c.maxTries == 0 && c.dynamicLimit {
      IdlePeriodIs(c, r, h);
    }
  }

  // ---------- queries leave no trace ----------

  function Erase(h: seq<Event>): seq<Event> {
    if h == [] then []
    else if h[|h| - 1].Queried? then Erase(h[..|h| - 1])
    else Erase(h[..|h| - 1]) + [h[|h| - 1]]
  }

  lemma {:induction false} ReplayErased(c: LimitConfig, l: Ledger, h: seq<Event>)
    requires c.Usable()
    ensures Replay(c, l, h) == Replay(c, l, Erase(h))
  {
    if h != [] {
      var init, last := h[..|h| - 1], h[|h| - 1];
      ReplayErased(c, l, init);
      if !last.Queried? {
        assert (Erase(init) + [last])[..|Erase(init)|] == Erase(init);
      }
    }
  }

  /** A limit that is not in force never changes on a query. */
  lemma {:induction false} UnlimitedRunErased(c: LimitConfig, r: Record, h: seq<Event>)
    requires c.Usable() && c.maxTries == 0
    ensures RecordRun(c, r, h) == RecordRun(c, r, Erase(h))
  {
    if h != [] {
      var init, last := h[..|h| - 1], h[|h| - 1];
      UnlimitedRunErased(c, r, init);
      if !last.Queried? {
        assert (Erase(init) + [last])[..|Erase(init)|] == Erase(init);
      }
    }
  }

  /** Two runs that differ only in their queries agree on every later verdict and published record. */
  lemma QueriesAreTransparent(c: LimitConfig, r: Record, start: int, h1: seq<Event>, h2: seq<Event>, now: int)
    requires c.Usable() && Configured(c, r)
    requires ClockMonotone(start, h1, now) && ClockMonotone(start, h2, now) && Erase(h1) == Erase(h2)
    ensures AllowRecord(c, RecordRun(c, r, h1), now).1 == AllowRecord(c, RecordRun(c, r, h2), now).1
    ensures ExportRecord(c, RecordRun(c, r, h1), now) == ExportRecord(c, RecordRun(c, r, h2), now)
  {
    if c.maxTries == 0 {
      UnlimitedRunErased(c, r, h1);
      UnlimitedRunErased(c, r, h2);
    } else {
      VerdictOfHistory(c, r, start, h1, now);
      VerdictOfHistory(c, r, start, h2, now);
      ReplayErased(c, OpeningLedger(r), h1);
      ReplayErased(c, OpeningLedger(r), h2);
    }
  }

  // ---------- restarting the daemon ----------

  lemma {:induction false} RunConcat(c: LimitConfig, r: Record, h1: seq<Event>, h2: seq<Event>)
    requires c.Usable()
    ensures RecordRun(c, r, h1 + h2) == RecordRun(c, RecordRun(c, r, h1), h2)
  {
    if h2 == [] {
      assert h1 + h2 == h1;
    } else {
      RunConcat(c, r, h1, h2[..|h2| - 1]);
      assert (h1 + h2)[..|h1 + h2| - 1] == h1 + h2[..|h2| - 1];
    }
  }

  /**
    Saving after h1, restarting and going on with h2 gives at every later time the verdict
    and, for a limit in force, the published record of the run that never restarted.
   */
  lemma RestartIsBisimilar(c: LimitConfig, r: Record, start: int, h1: seq<Event>, saved: int, h2: seq<Event>, now: int)
    requires c.Usable() && Configured(c, r)
    requires ClockMonotone(start, h1, saved) && ClockMonotone(saved, h2, now)
    ensures var restarted := RecordRun(c, RestartRecord(c, RecordRun(c, r, h1)), h2);
            var unbroken := RecordRun(c, r, h1 + h2);
            && AllowRecord(c, restarted, now).1 == AllowRecord(c, unbroken, now).1
            && (c.maxTries > 0 || !c.dynamicLimit ==> ExportRecord(c, restarted, now) == ExportRecord(c, unbroken, now))
  {
    var r1 := RecordRun(c, r, h1);
    var l1 := Replay(c, OpeningLedger(r), h1);
    RunRefines(c, r, OpeningLedger(r), start, h1, saved);
    RunRefines(c, r1, l1, saved, h2, now);
    RunRefines(c, RestartRecord(c, r1), l1, saved, h2, now);
    RunConcat(c, r, h1, h2);
    var l2 := Replay(c, l1, h2);
    QueryRefines(c, RecordRun(c, r1, h2), l2, now, now);
    QueryRefines(c, RecordRun(c, RestartRecord(c, r1), h2), l2, now, now);
  }

  lemma ReplayConcat(c: LimitConfig, l: Ledger, h1: seq<Event>, h2: seq<Event>)
    requires c.Usable()
    ensures Replay(c, l, h1 + h2) == Replay(c, Replay(c, l, h1), h2)
  {
    if h2 == [] {
      assert h1 + h2 == h1;
    } else {
      ReplayConcat(c, l, h1, h2[..|h2| - 1]);
      assert (h1 + h2)[..|h1 + h2| - 1] == h1 + h2[..|h2| - 1];
    }
  }

  lemma MonotoneConcat(start: int, h1: seq<Event>, saved: int, h2: seq<Event>, now: int)
    requires ClockMonotone(start, h1, saved) && ClockMonotone(saved, h2, now)
    ensures ClockMonotone(start, h1 + h2, now)
  {
  }

  /**
    A limit that starts out new or loaded, saved after h1 and restored, publishes after h2
    what it would have published without the restart, exactly when it is in force, is not
    dynamic, has no configured period, or has been lifted after the restart or not at all
    before it.
   */
  lemma RestartExportExactly(
      c: LimitConfig, r: Record, start: int, h1: seq<Event>, saved: int, h2: seq<Event>, now: int)
    requires c.Usable() && r.unlockSecs == c.unlockSecs
    requires ClockMonotone(start, h1, saved) && ClockMonotone(saved, h2, now)
    ensures var atSave := RecordRun(c, r, h1);
            ExportRecord(c, RecordRun(c, RestartRecord(c, atSave), h2), now)
            == ExportRecord(c, RecordRun(c, r, h1 + h2), now)
            <==> c.maxTries > 0 || !c.dynamicLimit || c.unlockSecs == 0 || Lifted(h2) || !Lifted(h1)
  {
    var atSave := RecordRun(c, r, h1);
    RestartIsBisimilar(c, r, start, h1, saved, h2, now);
    if c.maxTries == 0 && c.dynamicLimit {
      MonotoneConcat(start, h1, saved, h2, now);
      VerdictOfHistory(c, r, start, h1 + h2, now);
      VerdictOfHistory(c, RestartRecord(c, atSave), saved, h2, now);
      IdleFailures(c, r, h1);
      ReplayConcat(c, OpeningLedger(r), h1, h2);
      IdleLedgers(c, OpeningLedger(RestartRecord(c, atSave)), Replay(c, OpeningLedger(r), h1), h2);
      LiftedConcat(h1, h2);
    }
  }

  lemma LiftedConcat(h1: seq<Event>, h2: seq<Event>)
    ensures Lifted(h1 + h2) <==> Lifted(h1) || Lifted(h2)
  {
    forall e | e in h1 || e in h2 ensures e in h1 + h2 {
    }
  }

  lemma {:induction false} IdleFailures(c: LimitConfig, r: Record, h: seq<Event>)
    requires c.Usable() && c.maxTries == 0 && c.dynamicLimit
    ensures RecordRun(c, r, h).numFailures == Replay(c, OpeningLedger(r), h).failures
  {
    if h != [] {
      IdleFailures(c, r, h[..|h| - 1]);
    }
  }

  lemma {:induction false} IdleLedgers(c: LimitConfig, l: Ledger, l': Ledger, h: seq<Event>)
    requires c.Usable() && c.maxTries == 0 && l.failures == l'.failures
    ensures Replay(c, l, h).failures == Replay(c, l', h).failures
  {
    if h != [] {
      IdleLedgers(c, l, l', h[..|h| - 1]);
    }
  }

  /** A full reset of a dynamic limit that is not in force is a case in which it changes. */
  lemma UnlimitedDynamicExportChanges()
    ensures var c := LimitConfig(0, 60, true, [60]);
            var saved := RecordRun(c, FreshRecord(c), [FullyReset(0)]);
            ExportRecord(c, RestartRecord(c, saved), 0) != ExportRecord(c, saved, 0)
  {
    var c := LimitConfig(0, 60, true, [60]);
    assert [FullyReset(0)][..0] == [];
    assert RecordRun(c, FreshRecord(c), [FullyReset(0)]) == RecordStep(c, FreshRecord(c), FullyReset(0));
  }

  // ---------- what the counters of the ledger are ----------

  predicate Clears(c: LimitConfig, e: Event) {
    e.FullyReset? || (e.Succeeded? && !c.dynamicLimit)
  }

  /** Failures since the last event that clears the count. */
  function FailuresSince(c: LimitConfig, opening: int, h: seq<Event>): int {
    if h == [] then opening
    else if Clears(c, h[|h| - 1]) then 0
    else FailuresSince(c, opening, h[..|h| - 1]) + if h[|h| - 1].Failed? then 1 else 0
  }

  /**
    A dynamic limit counts every failure since the last full reset, and a permanent lock
    every failure since the last success or full reset: neither is forgiven by time.
   */
  lemma {:induction false} FailuresAreCounted(c: LimitConfig, l: Ledger, h: seq<Event>)
    requires c.Usable() && c.maxTries > 0 && (c.dynamicLimit || c.unlockSecs < 0)
    ensures Replay(c, l, h).failures == FailuresSince(c, l.failures, h)
  {
    if h != [] {
      FailuresAreCounted(c, l, h[..|h| - 1]);
    }
  }

  /** The time of the last failure, unless the factor has succeeded or been reset after it. */
  function LastFailure(opening: Stamp, h: seq<Event>): Stamp {
    if h == [] then opening
    else match h[|h| - 1]
      case Failed(now) => At(now)
      case Queried(_) => LastFailure(opening, h[..|h| - 1])
      case _ => Never
  }

  /** While attempts are being refused the lock dates from the last failure. */
  lemma {:induction false} LockDatesFromLastFailure(c: LimitConfig, l: Ledger, h: seq<Event>)
    requires c.Usable() && c.maxTries > 0
    ensures var now := Replay(c, l, h); Engaged(c, now) ==> now.lockedAt == LastFailure(l.lockedAt, h)
  {
    if h != [] {
      LockDatesFromLastFailure(c, l, h[..|h| - 1]);
    }
  }

  /** After a full reset a limit stands at zero failures and lets the next attempt through. */
  lemma FullResetAllows(c: LimitConfig, r: Record, at: int, now: int)
    requires c.Usable()
    ensures var r1 := RecordStep(c, r, FullyReset(at));
            r1.numFailures == 0 && r1.lockAt == Never && AllowRecord(c, r1, now).1 == Allowed
  {
  }

  // ---------- escalation ----------

  lemma PeriodGrows(c: LimitConfig, m: int, n: int)
    requires c.dynamicLimit && c.Usable() && c.Escalating() && c.maxTries <= m <= n
    requires c.Period(m) != 0 && c.Period(n) != 0
    ensures NoLonger(c.Period(m), c.Period(n))
  {
  }

  lemma {:induction false} FailuresGrow(c: LimitConfig, l: Ledger, h: seq<Event>)
    requires c.dynamicLimit && c.Usable() && forall e | e in h :: !e.FullyReset?
    ensures l.failures <= Replay(c, l, h).failures
  {
    if h != [] {
      FailuresGrow(c, l, h[..|h| - 1]);
    }
  }

  /** Two refusals of one limit, the second after further events among which no full reset. */
  ghost predicate RefusedTwice(c: LimitConfig, h1: seq<Event>, t1: int, h2: seq<Event>, t2: int)
    requires c.Usable()
  {
    && (exists start :: ClockMonotone(start, h1, t1)) && ClockMonotone(t1, h2, t2)
    && (forall e | e in h2 :: !e.FullyReset?)
    && AllowRecord(c, RecordRun(c, FreshRecord(c), h1), t1).1.Denied?
    && AllowRecord(c, RecordRun(c, FreshRecord(c), h1 + h2), t2).1.Denied?
  }

  lemma {:induction false} RefusalsEscalate(c: LimitConfig, h1: seq<Event>, t1: int, h2: seq<Event>, t2: int)
    requires c.dynamicLimit && c.Usable() && c.Escalating() && RefusedTwice(c, h1, t1, h2, t2)
    ensures NoLonger(AllowRecord(c, RecordRun(c, FreshRecord(c), h1), t1).1.unlockSecs,
                     AllowRecord(c, RecordRun(c, FreshRecord(c), h1 + h2), t2).1.unlockSecs)
  {
    var start :| ClockMonotone(start, h1, t1);
    var l1 := Replay(c, OpeningLedger(FreshRecord(c)), h1);
    VerdictOfHistory(c, FreshRecord(c), start, h1, t1);
    MonotoneConcat(start, h1, t1, h2, t2);
    VerdictOfHistory(c, FreshRecord(c), start, h1 + h2, t2);
    ReplayConcat(c, OpeningLedger(FreshRecord(c)), h1, h2);
    FailuresGrow(c, l1, h2);
    PeriodGrows(c, l1.failures, Replay(c, l1, h2).failures);
  }

  /** Failures only, all at the same time. */
  ghost predicate FailsAtOnce(h: seq<Event>) {
    forall i | 0 <= i < |h| :: h[i] == Failed(0)
  }

  lemma {:induction false} FailuresAtOnceLock(c: LimitConfig, h: seq<Event>)
    requires c.dynamicLimit && c.Usable() && c.maxTries > 0 && FailsAtOnce(h)
    ensures Replay(c, Ledger(0, Never), h).failures == |h|
    ensures |h| >= c.maxTries ==> Replay(c, Ledger(0, Never), h).lockedAt == At(0)
  {
    if h != [] {
      FailuresAtOnceLock(c, h[..|h| - 1]);
    }
  }

  /** Failing n times at once is refused for the period the table gives for n. */
  lemma FailuresAtOnceDenied(c: LimitConfig, h: seq<Event>)
    requires c.dynamicLimit && c.Usable() && 0 < c.maxTries <= |h| && c.Period(|h|) != 0 && FailsAtOnce(h)
    ensures AllowRecord(c, RecordRun(c, FreshRecord(c), h), 0).1 == Denied(At(0), c.Period(|h|))
  {
    FailuresAtOnceLock(c, h);
    VerdictOfHistory(c, FreshRecord(c), 0, h, 0);
  }

  lemma RefusedAtOnce(c: LimitConfig, h1: seq<Event>, h2: seq<Event>)
    requires c.dynamicLimit && c.Usable() && 0 < c.maxTries <= |h1| && FailsAtOnce(h1) && FailsAtOnce(h2)
    requires c.Period(|h1|) != 0 && c.Period(|h1 + h2|) != 0
    ensures RefusedTwice(c, h1, 0, h2, 0)
    ensures AllowRecord(c, RecordRun(c, FreshRecord(c), h1), 0).1 == Denied(At(0), c.Period(|h1|))
    ensures AllowRecord(c, RecordRun(c, FreshRecord(c), h1 + h2), 0).1 == Denied(At(0), c.Period(|h1 + h2|))
  {
    FailuresAtOnceDenied(c, h1);
    FailuresAtOnceDenied(c, h1 + h2);
    assert ClockMonotone(0, h1, 0) && ClockMonotone(0, h2, 0);
  }

  lemma PeriodInTable(c: LimitConfig, i: nat)
    requires c.dynamicLimit && i < |c.dynamicUnlockSecs|
    ensures c.Period(c.maxTries + i) == c.dynamicUnlockSecs[i]
  {
  }

  /** The two refusals a disordered table leads to. */
  lemma DisorderShortens(c: LimitConfig) returns (h1: seq<Event>, h2: seq<Event>)
    requires c.dynamicLimit && c.Usable() && c.maxTries > 0 && !c.Escalating()
    ensures RefusedTwice(c, h1, 0, h2, 0)
    ensures !NoLonger(AllowRecord(c, RecordRun(c, FreshRecord(c), h1), 0).1.unlockSecs,
                      AllowRecord(c, RecordRun(c, FreshRecord(c), h1 + h2), 0).1.unlockSecs)
  {
    var table := c.dynamicUnlockSecs;
    var i, j :| 0 <= i <= j < |table| && table[i] != 0 && table[j] != 0 && !NoLonger(table[i], table[j]);
    PeriodInTable(c, i);
    PeriodInTable(c, j);
    h1, h2 := seq(c.maxTries + i, _ => Failed(0)), seq(j - i, _ => Failed(0));
    RefusedAtOnce(c, h1, h2);
  }

  /**
    A lock of a dynamic limit is never shorter than an earlier one, on any run and until a
    full reset, exactly when the table is ordered, with a period that locks for good as the
    longest. A table that goes from a permanent lock to a short one unlocks on one more failure.
   */
  lemma LocksEscalateExactly(c: LimitConfig)
    requires c.dynamicLimit && c.Usable() && c.maxTries > 0
    ensures c.Escalating() <==>
            forall h1, t1, h2, t2 | RefusedTwice(c, h1, t1, h2, t2) ::
              NoLonger(AllowRecord(c, RecordRun(c, FreshRecord(c), h1), t1).1.unlockSecs,
                       AllowRecord(c, RecordRun(c, FreshRecord(c), h1 + h2), t2).1.unlockSecs)
  {
    if c.Escalating() {
      forall h1, t1, h2, t2 | RefusedTwice(c, h1, t1, h2, t2)
        ensures NoLonger(AllowRecord(c, RecordRun(c, FreshRecord(c), h1), t1).1.unlockSecs,
                         AllowRecord(c, RecordRun(c, FreshRecord(c), h1 + h2), t2).1.unlockSecs)
      {
        RefusalsEscalate(c, h1, t1, h2, t2);
      }
    } else {
      var h1, h2 := DisorderShortens(c);
    }
  }

  /** With an ordered table a limit that refuses for good goes on refusing until a full reset. */
  lemma {:induction false} PermanentStaysPermanent(c: LimitConfig, r: Record, start: int, h1: seq<Event>, t1: int,
        h2: seq<Event>, t2: int)
    requires c.dynamicLimit && c.Usable() && c.Escalating() && (forall s | s in c.dynamicUnlockSecs :: s != 0)
    requires ClockMonotone(start, h1, t1) && ClockMonotone(t1, h2, t2) && forall e | e in h2 :: !e.FullyReset?
    requires var v := AllowRecord(c, RecordRun(c, r, h1), t1).1; v.Denied? && v.unlockSecs < 0
    ensures var v := AllowRecord(c, RecordRun(c, r, h1 + h2), t2).1; v.Denied? && v.unlockSecs < 0
  {
    var l1 := Replay(c, OpeningLedger(r), h1);
    VerdictOfHistory(c, r, start, h1, t1);
    MonotoneConcat(start, h1, t1, h2, t2);
    VerdictOfHistory(c, r, start, h1 + h2, t2);
    ReplayConcat(c, OpeningLedger(r), h1, h2);
    FailuresGrow(c, l1, h2);
    assert c.Period(Replay(c, l1, h2).failures) in c.dynamicUnlockSecs;
    PeriodGrows(c, l1.failures, Replay(c, l1, h2).failures);
  }

  // ---------- the lock-out in plain numbers ----------

  ghost predicate OnlyFailures(h: seq<Event>) {
    forall i | 0 <= i < |h| :: h[i].Failed?
  }

  lemma {:induction false} FirstFailures(c: LimitConfig, h: seq<Event>)
    requires c.Usable() && !c.dynamicLimit && OnlyFailures(h) && 0 < c.maxTries && |h| <= c.maxTries
    ensures RecordRun(c, FreshRecord(c), h)
            == Record(|h|, if |h| == c.maxTries then At(h[|h| - 1].at) else Never, c.unlockSecs)
  {
    if h != [] {
      FirstFailures(c, h[..|h| - 1]);
    }
  }

  /**
    A fixed limit of n tries lets the first n - 1 failures pass; from the nth on it refuses
    until unlockSecs seconds have gone by, for good if they are negative, not at all if zero.
    The next failure after that is the first of a new count.
   */
  lemma FixedLockout(c: LimitConfig, h: seq<Event>, now: int)
    requires c.Usable() && !c.dynamicLimit && OnlyFailures(h) && 0 < c.maxTries && |h| <= c.maxTries
    ensures var r := RecordRun(c, FreshRecord(c), h);
            && (|h| < c.maxTries ==> ExportRecord(c, r, now) == Export(c.unlockSecs, |h|, Allowed))
            && (|h| == c.maxTries ==>
                  var since := now - h[|h| - 1].at;
                  && AllowRecord(c, r, now).1
                     == (if c.unlockSecs < 0 || (c.unlockSecs > 0 && since <= c.unlockSecs * 1_000_000_000)
                         then Denied(At(h[|h| - 1].at), c.unlockSecs) else Allowed)
                  && (AllowRecord(c, r, now).1.Denied? ==>
                        ExportRecord(c, r, now) == Export(c.unlockSecs, |h|, AllowRecord(c, r, now).1))
                  && (c.unlockSecs >= 0 && since > c.unlockSecs * 1_000_000_000 ==>
                        FailRecord(c, r, now).numFailures == 1)
                  && (c.unlockSecs < 0 || since <= c.unlockSecs * 1_000_000_000 ==>
                        FailRecord(c, r, now).numFailures == c.maxTries + 1))
  {
    FirstFailures(c, h);
  }

  lemma {:induction false} DynamicFailures(c: LimitConfig, h: seq<Event>)
    requires c.Usable() && c.dynamicLimit && OnlyFailures(h) && 0 < c.maxTries
    ensures Replay(c, Ledger(0, Never), h)
            == Ledger(|h|, if |h| >= c.maxTries then At(h[|h| - 1].at) else Never)
  {
    if h != [] {
      DynamicFailures(c, h[..|h| - 1]);
    }
  }

  /**
    A dynamic limit of n tries takes the period of the nth failure, and of each one after it,
    from its table, where the last entry stands for all that follow.
   */
  lemma DynamicLockout(c: LimitConfig, start: int, h: seq<Event>, now: int)
    requires c.Usable() && c.dynamicLimit && OnlyFailures(h) && 0 < c.maxTries && ClockMonotone(start, h, now)
    ensures var v, beyond := AllowRecord(c, RecordRun(c, FreshRecord(c), h), now).1, |h| - c.maxTries;
            && (beyond < 0 ==> v == Allowed)
            && (beyond >= 0 ==>
                  var table := c.dynamicUnlockSecs;
                  var secs := if beyond < |table| then table[beyond] else table[|table| - 1];
                  v == if secs < 0 || (secs > 0 && now - h[|h| - 1].at <= secs * 1_000_000_000)
                       then Denied(At(h[|h| - 1].at), secs) else Allowed)
  {
    VerdictOfHistory(c, FreshRecord(c), start, h, now);
    DynamicFailures(c, h);
  }

  /** A success clears the count of a fixed limit; a dynamic one keeps it, but is lifted unless it locks for good. */
  lemma SuccessLifts(c: LimitConfig, r: Record, now: int)
    requires c.Usable() && Configured(c, r)
    ensures var after := RecordStep(c, r, Succeeded(now));
            && after.numFailures == (if c.dynamicLimit then r.numFailures else 0)
            && after.lockAt == Never
            && (AllowRecord(c, after, now).1.Denied? ==>
                  c.dynamicLimit && c.maxTries > 0 && c.DynamicPeriod(r.numFailures) < 0)
  {
  }

  /** A limit without a maximum refuses nobody and counts nothing. */
  lemma NoMaximumNeverRefuses(c: LimitConfig, r: Record, now: int)
    requires c.Usable() && c.maxTries == 0
    ensures AllowRecord(c, r, now) == (r, Allowed) && FailRecord(c, r, now) == r
  {
  }
}
