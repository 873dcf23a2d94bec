/**
  Claiming a fingerprint reader (service/fingerprint/manager.go, device.go).

  Every device remembers who holds it, and the manager remembers on its own whom it last
  let claim the default device; both are consulted. The Desk is the meaning: one place that
  is free or held by one caller. Handlers are taken one at a time, as on the message loop.
 */
module FingerprintClaims {
  import opened Collections

  datatype UserInfo = UserInfo(name: string, uuid: string)

  const NO_USER := UserInfo("", "")

  /** The holder of a device; the empty sender stands for nobody. */
  datatype Hold = Hold(sender: string, user: UserInfo)

  const FREE := Hold("", NO_USER)

  /** How the driver answers a claim; an error that says "claimed" counts as an answer. */
  datatype DriverAnswer = Answered | AlreadyClaimed | Refused | TimedOut

  predicate Accepts(a: DriverAnswer) {
    a.Answered? || a.AlreadyClaimed?
  }

  datatype Outcome =
    | Done
    | NoDevice | NoSuchUser | IsClaimed | DriverError | SenderNotEqual | NotClaimed
    | NotFound | Unavailable | TargetClaimed | OldDefaultClaimed | SaveFailed

  datatype DeviceInfo = DeviceInfo(name: string, available: bool, index: nat)

  datatype Op =
    | Claim(sender: string, user: Option<UserInfo>, answer: DriverAnswer)
    | Release(sender: string, user: Option<UserInfo>)
    | NameLost(name: string)
    | SetDefault(name: string, saveFails: bool)

  /** What the daemon keeps: the devices, which one is the default, and whom it let claim. */
  datatype Fleet = Fleet(devices: seq<Hold>, default: Option<nat>, claimInfo: Hold, infos: seq<DeviceInfo>)

  /** Bus names of callers are unique names, which start with a colon. */
  predicate IsBusName(name: string) {
    name != "" && name[0] == ':'
  }

  ghost predicate Proper(infos: seq<DeviceInfo>, n: nat) {
    forall i | i in infos :: i.index < n
  }

  predicate FromCaller(op: Op) {
    match op
    case Claim(s, _, _) => IsBusName(s)
    case Release(s, _) => IsBusName(s)
    case NameLost(n) => IsBusName(n)
    case SetDefault(_, _) => true
  }

  // ---------- one device ----------

  function ClaimDevice(d: Hold, sender: string, user: UserInfo, answer: DriverAnswer): (Hold, Outcome) {
    if d.sender != "" then (d, IsClaimed)
    else if Accepts(answer) then (Hold(sender, user), Done)
    else (d, DriverError)
  }

  function ReleaseDevice(d: Hold, sender: string): (Hold, Outcome) {
    if d.sender == "" then (d, NotClaimed)
    else if d.sender != sender then (d, SenderNotEqual)
    else (FREE, Done)
  }

  function DeviceCall(d: Hold, sender: string, user: UserInfo, claimed: bool, answer: DriverAnswer): (Hold, Outcome) {
    if claimed then ClaimDevice(d, sender, user, answer) else ReleaseDevice(d, sender)
  }

  // ---------- the manager ----------

  /** The first entry of that name; an empty name is never found. */
  function FindInfo(infos: seq<DeviceInfo>, name: string): Option<DeviceInfo> {
    if infos == [] || name == "" then None
    else if infos[0].name == name then Some(infos[0])
    else FindInfo(infos[1..], name)
  }

  function FirstHeldBy(devices: seq<Hold>, name: string): (i: nat)
    ensures i <= |devices| && (i < |devices| ==> devices[i].sender == name)
    ensures forall j | 0 <= j < i :: devices[j].sender != name
  {
    if devices == [] || devices[0].sender == name then 0 else 1 + FirstHeldBy(devices[1..], name)
  }

  /** A held device is released in the name of the remembered holder. */
  function Preempt(d: Hold, remembered: string): (Hold, Outcome) {
    if d.sender != "" then ReleaseDevice(d, remembered) else (d, Done)
  }

  /** Claiming frees the device of the remembered holder first, then asks the driver. */
  function Reclaim(f: Fleet, sender: string, user: UserInfo, answer: DriverAnswer): (Fleet, Outcome)
    requires f.default.Some? && f.default.value < |f.devices|
  {
    var d := f.default.value;
    var freed := Preempt(f.devices[d], f.claimInfo.sender);
    if !freed.1.Done? then (f, freed.1)
    else
      var held := ClaimDevice(freed.0, sender, user, answer);
      (f.(devices := f.devices[d := held.0], claimInfo := if held.1.Done? then Hold(sender, user) else f.claimInfo),
          held.1)
  }

  /** Every step of the daemon, with the outcome it returns. */
  function Step(f: Fleet, op: Op): (Fleet, Outcome)
    requires f.default.Some? ==> f.default.value < |f.devices|
    requires forall i | i in f.infos :: i.index < |f.devices|
  {
    match op
    case Claim(sender, user, answer) =>
      if f.default.None? then (f, NoDevice)
      else if user.None? then (f, NoSuchUser)
      else
        Reclaim(f, sender, user.value, answer)
    case Release(sender, user) =>
      if f.default.None? then (f, NoDevice)
      else if user.None? then (f, NoSuchUser)
      else
        var d := f.default.value;
        var (freed, res) := ReleaseDevice(f.devices[d], sender);
        (f.(devices := f.devices[d := freed]), res)
    case NameLost(name) =>
      var i := FirstHeldBy(f.devices, name);
      (if i < |f.devices| then f.(devices := f.devices[i := FREE]) else f, Done)
    case SetDefault(name, saveFails) =>
      var info := FindInfo(f.infos, name);
      if info.None? then (f, NotFound)
      else if !info.value.available then (f, Unavailable)
      else if info.value.index < |f.devices| && f.devices[info.value.index].sender != "" then (f, TargetClaimed)
      else if f.default.Some? && f.devices[f.default.value].sender != "" then (f, OldDefaultClaimed)
      else (f.(default := Some(info.value.index)), if saveFails then SaveFailed else Done)
  }

  // ---------- the meaning ----------

  datatype Desk = Desk(default: Option<nat>, holder: Option<Hold>)

  function DeskStep(infos: seq<DeviceInfo>, k: Desk, op: Op): (Desk, Outcome) {
    match op
    case Claim(sender, user, answer) =>
      if k.default.None? then (k, NoDevice)
      else if user.None? then (k, NoSuchUser)
      else if Accepts(answer) then (k.(holder := Some(Hold(sender, user.value))), Done)
      else (k.(holder := None), DriverError)
    case Release(sender, user) =>
      if k.default.None? then (k, NoDevice)
      else if user.None? then (k, NoSuchUser)
      else if k.holder.None? then (k, NotClaimed)
      else if k.holder.value.sender != sender then (k, SenderNotEqual)
      else (k.(holder := None), Done)
    case NameLost(name) =>
      (if k.holder.Some? && k.holder.value.sender == name then k.(holder := None) else k, Done)
    case SetDefault(name, saveFails) =>
      var info := FindInfo(infos, name);
      if info.None? then (k, NotFound)
      else if !info.value.available then (k, Unavailable)
      else if k.holder.Some? then (k, if k.default == Some(info.value.index) then TargetClaimed else OldDefaultClaimed)
      else (k.(default := Some(info.value.index)), if saveFails then SaveFailed else Done)
  }

  /**
    Only the default device can be held, and its holder is the one the manager remembers:
    so at most one device is held.
   */
  ghost predicate Represents(f: Fleet, k: Desk) {
    && Proper(f.infos, |f.devices|)
    && f.default == k.default
    && (f.default.Some? ==> f.default.value < |f.devices|)
    && (k.holder.Some? ==>
          && f.default.Some? && IsBusName(k.holder.value.sender)
          && f.devices[f.default.value] == k.holder.value == f.claimInfo)
    && (forall i | 0 <= i < |f.devices| && !(k.holder.Some? && Some(i) == f.default) :: f.devices[i].sender == "")
  }

  lemma {:induction false} FoundInfo(infos: seq<DeviceInfo>, name: string)
    requires FindInfo(infos, name).Some?
    ensures FindInfo(infos, name).value in infos
  {
    if infos[0].name != name {
      FoundInfo(infos[1..], name);
    }
  }

  /** The search that stops at the first device held by the lost name frees every such device. */
  lemma NameLostFreesAll(f: Fleet, k: Desk, name: string)
    requires Represents(f, k) && IsBusName(name)
    ensures Represents(Step(f, NameLost(name)).0, DeskStep(f.infos, k, NameLost(name)).0)
    ensures forall d | d in Step(f, NameLost(name)).0.devices :: d.sender != name
  {
    var i := FirstHeldBy(f.devices, name);
    if i < |f.devices| {
      assert k.holder.Some? && f.default == Some(i);
      assert k.holder.value.sender == name;
    }
    var g := Step(f, NameLost(name)).0;
    forall d | d in g.devices ensures d.sender != name {
      var j :| 0 <= j < |g.devices| && g.devices[j] == d;
      if i < |f.devices| && j != i {
        assert f.devices[j].sender == "";
      }
    }
  }

  lemma ClaimRefines(f: Fleet, k: Desk, op: Op)
    requires Represents(f, k) && op.Claim? && IsBusName(op.sender)
    ensures Represents(Step(f, op).0, DeskStep(f.infos, k, op).0)
    ensures Step(f, op).1 == DeskStep(f.infos, k, op).1
    ensures Step(f, op).0.infos == f.infos
  {
    if f.default.Some? && op.user.Some? {
      assert k.holder.None? ==> f.devices[f.default.value].sender == "";
    }
  }

  lemma ReleaseRefines(f: Fleet, k: Desk, op: Op)
    requires Represents(f, k) && op.Release? && IsBusName(op.sender)
    ensures Represents(Step(f, op).0, DeskStep(f.infos, k, op).0)
    ensures Step(f, op).1 == DeskStep(f.infos, k, op).1
    ensures Step(f, op).0.infos == f.infos
  {
    if f.default.Some? && op.user.Some? {
      assert k.holder.None? ==> f.devices[f.default.value].sender == "";
    }
  }

  lemma SetDefaultRefines(f: Fleet, k: Desk, op: Op)
    requires Represents(f, k) && op.SetDefault?
    ensures Represents(Step(f, op).0, DeskStep(f.infos, k, op).0)
    ensures Step(f, op).1 == DeskStep(f.infos, k, op).1
    ensures Step(f, op).0.infos == f.infos
  {
    var info := FindInfo(f.infos, op.name);
    if info.Some? {
      FoundInfo(f.infos, op.name);
      assert k.holder.None? ==> f.devices[info.value.index].sender == "";
      assert f.default.Some? && k.holder.None? ==> f.devices[f.default.value].sender == "";
    }
  }

  /** Each handler returns what the desk returns; in particular pre-empting never fails. */
  lemma StepRefines(f: Fleet, k: Desk, op: Op)
    requires Represents(f, k) && FromCaller(op)
    ensures Represents(Step(f, op).0, DeskStep(f.infos, k, op).0)
    ensures Step(f, op).1 == DeskStep(f.infos, k, op).1
    ensures Step(f, op).0.infos == f.infos
  {
    match op {
      case Claim(_, _, _) => ClaimRefines(f, k, op);
      case Release(_, _) => ReleaseRefines(f, k, op);
      case NameLost(name) => NameLostFreesAll(f, k, name);
      case SetDefault(_, _) => SetDefaultRefines(f, k, op);
    }
  }

  // ---------- runs ----------

  function DeskRun(infos: seq<DeviceInfo>, k: Desk, ops: seq<Op>): Desk {
    if ops == [] then k else DeskStep(infos, DeskRun(infos, k, ops[..|ops| - 1]), ops[|ops| - 1]).0
  }

  function DeskOutcomes(infos: seq<DeviceInfo>, k: Desk, ops: seq<Op>): seq<Outcome> {
    if ops == [] then []
    else
      DeskOutcomes(infos, k, ops[..|ops| - 1])
          + [DeskStep(infos, DeskRun(infos, k, ops[..|ops| - 1]), ops[|ops| - 1]).1]
  }

  /** The fleet after a run and what its handlers returned; a malformed fleet is left alone. */
  ghost function FleetRun(f: Fleet, ops: seq<Op>): (Fleet, seq<Outcome>) {
    if ops == [] then (f, [])
    else
      var (g, outcomes) := FleetRun(f, ops[..|ops| - 1]);
      if (g.default.Some? ==> g.default.value < |g.devices|) && Proper(g.infos, |g.devices|) then
        (Step(g, ops[|ops| - 1]).0, outcomes + [Step(g, ops[|ops| - 1]).1])
      else (g, outcomes)
  }

  /** On every run, whatever the drivers answer, the fleet returns exactly what the desk returns. */
  lemma {:induction false} FleetRefinesDesk(f: Fleet, k: Desk, ops: seq<Op>)
    requires Represents(f, k) && forall op | op in ops :: FromCaller(op)
    ensures Represents(FleetRun(f, ops).0, DeskRun(f.infos, k, ops))
    ensures FleetRun(f, ops).1 == DeskOutcomes(f.infos, k, ops)
    ensures FleetRun(f, ops).0.infos == f.infos
  {
    if ops != [] {
      var init, last := ops[..|ops| - 1], ops[|ops| - 1];
      assert last in ops && forall op | op in init :: op in ops;
      FleetRefinesDesk(f, k, init);
      StepRefines(FleetRun(f, init).0, DeskRun(f.infos, k, init), last);
    }
  }

  /** checkClaimed for a caller of any operation on the default device. */
  function CheckClaimed(f: Fleet, sender: string): Outcome
    requires f.default.Some? ==> f.default.value < |f.devices|
  {
    if f.default.None? then NoDevice
    else if f.devices[f.default.value].sender == "" then NotClaimed
    else if f.devices[f.default.value].sender != sender then SenderNotEqual
    else Done
  }

  /** At every moment of every run at most one device is held, and only its holder may use it. */
  lemma OneHolder(f: Fleet, k: Desk, ops: seq<Op>, sender: string)
    requires Represents(f, k) && forall op | op in ops :: FromCaller(op)
    requires IsBusName(sender)
    ensures var g, after := FleetRun(f, ops).0, DeskRun(f.infos, k, ops);
            && (g.default.Some? ==> g.default.value < |g.devices|)
            && (forall i, j | 0 <= i < j < |g.devices| :: g.devices[i].sender == "" || g.devices[j].sender == "")
            && (CheckClaimed(g, sender).Done? <==> after.holder.Some? && after.holder.value.sender == sender)
  {
    FleetRefinesDesk(f, k, ops);
  }

  /** Ends the hold of a sender: another claim, a release by that sender, the loss of its name. */
  predicate Ends(op: Op, sender: string) {
    op.Claim? || (op.Release? && op.sender == sender) || (op.NameLost? && op.name == sender)
  }

  lemma {:induction false} HoldLasts(infos: seq<DeviceInfo>, k: Desk, ops: seq<Op>)
    requires k.holder.Some? && forall op | op in ops :: !Ends(op, k.holder.value.sender)
    ensures DeskRun(infos, k, ops) == k
  {
    if ops != [] {
      var init, last := ops[..|ops| - 1], ops[|ops| - 1];
      assert last in ops && forall op | op in init :: op in ops;
      HoldLasts(infos, k, init);
    }
  }

  lemma {:induction false} DeskRunConcat(infos: seq<DeviceInfo>, k: Desk, a: seq<Op>, b: seq<Op>)
    ensures DeskRun(infos, k, a + b) == DeskRun(infos, DeskRun(infos, k, a), b)
  {
    if b != [] {
      DeskRunConcat(infos, k, a, b[..|b| - 1]);
      assert (a + b)[..|a + b| - 1] == a + b[..|b| - 1];
    } else {
      assert a + b == a;
    }
  }

  lemma HeldAfter(f: Fleet, k: Desk, before: seq<Op>, claim: Op, after: seq<Op>, other: string)
    requires Represents(f, k) && claim.Claim? && IsBusName(other)
    requires forall op | op in before + [claim] + after :: FromCaller(op)
    requires forall op | op in after :: !Ends(op, claim.sender)
    requires var at := DeskStep(f.infos, DeskRun(f.infos, k, before), claim); at.1.Done?
    ensures var h := FleetRun(f, before + [claim] + after).0;
            && (h.default.Some? ==> h.default.value < |h.devices|)
            && (CheckClaimed(h, other).Done? <==> other == claim.sender)
  {
    var ops := before + [claim];
    assert ops[..|before|] == before;
    HoldLasts(f.infos, DeskRun(f.infos, k, ops), after);
    DeskRunConcat(f.infos, k, ops, after);
    OneHolder(f, k, ops + after, other);
  }

  lemma ClaimDone(k: Desk, infos: seq<DeviceInfo>, claim: Op)
    requires claim.Claim?
    ensures DeskStep(infos, k, claim).1.Done? <==>
            k.default.Some? && claim.user.Some? && (claim.answer.Answered? || claim.answer.AlreadyClaimed?)
    ensures DeskStep(infos, k, claim).1.DriverError? <==>
            k.default.Some? && claim.user.Some? && (claim.answer.Refused? || claim.answer.TimedOut?)
    ensures DeskStep(infos, k, claim).1.NoDevice? <==> k.default.None?
    ensures DeskStep(infos, k, claim).1.NoSuchUser? <==> k.default.Some? && claim.user.None?
    ensures DeskStep(infos, k, claim).1.Done? ==>
              DeskStep(infos, k, claim).0.holder == Some(Hold(claim.sender, claim.user.value))
  {
  }

  /**
    A claim succeeds exactly when there is a default device, the user is known and the driver
    answers; then this sender and nobody else passes the check, whoever held the device
    before and whatever others try, until someone claims anew, the sender releases or is lost.
   */
  lemma ClaimHolds(f: Fleet, k: Desk, before: seq<Op>, claim: Op, after: seq<Op>, other: string)
    requires Represents(f, k) && claim.Claim? && IsBusName(other)
    requires forall op | op in before + [claim] + after :: FromCaller(op)
    requires forall op | op in after :: !Ends(op, claim.sender)
    ensures var g := FleetRun(f, before).0;
            && (g.default.Some? ==> g.default.value < |g.devices|) && Proper(g.infos, |g.devices|)
            && (Step(g, claim).1.Done? <==>
                  g.default.Some? && claim.user.Some? && (claim.answer.Answered? || claim.answer.AlreadyClaimed?))
            && (claim.answer.Refused? || claim.answer.TimedOut? ==>
                  Step(g, claim).1 == if g.default.None? then NoDevice
                                      else if claim.user.None? then NoSuchUser else DriverError)
            && (Step(g, claim).1.Done? ==>
                  var h := FleetRun(f, before + [claim] + after).0;
                  && (h.default.Some? ==> h.default.value < |h.devices|)
                  && (CheckClaimed(h, other).Done? <==> other == claim.sender))
  {
    assert claim in before + [claim] + after;
    assert forall op | op in before :: op in before + [claim] + after;
    FleetRefinesDesk(f, k, before);
    StepRefines(FleetRun(f, before).0, DeskRun(f.infos, k, before), claim);
    ClaimDone(DeskRun(f.infos, k, before), f.infos, claim);
    if Step(FleetRun(f, before).0, claim).1.Done? {
      HeldAfter(f, k, before, claim, after, other);
    }
  }

  /**
    A claim that fails, because the driver refuses it or does not answer in time, has already
    taken the device from its former holder; the hold survives exactly when the claim failed
    before that, because its user is not known.
   */
  lemma FailedClaimKeepsHoldExactly(f: Fleet, k: Desk, op: Op)
    requires Represents(f, k) && k.holder.Some? && op.Claim? && IsBusName(op.sender)
    requires !Step(f, op).1.Done?
    ensures var g := Step(f, op).0;
            && (g.default.Some? ==> g.default.value < |g.devices|)
            && (CheckClaimed(g, k.holder.value.sender).Done? <==> op.user.None?)
            && (op.user.Some? ==>
                  (op.answer.Refused? || op.answer.TimedOut?) && forall s :: !CheckClaimed(g, s).Done?)
  {
    ClaimRefines(f, k, op);
  }

  /**
    A release succeeds exactly for a known user whose caller passes the check, and frees the
    device; else nothing changes.
   */
  lemma ReleasedExactly(f: Fleet, k: Desk, op: Op)
    requires Represents(f, k) && op.Release? && IsBusName(op.sender)
    ensures var (g, res) := Step(f, op);
            && (g.default.Some? ==> g.default.value < |g.devices|)
            && (res.Done? <==> f.default.Some? && op.user.Some? && CheckClaimed(f, op.sender).Done?)
            && (f.default.Some? && op.user.Some? && !res.Done? ==>
                  res == if exists s :: CheckClaimed(f, s).Done? then SenderNotEqual else NotClaimed)
            && (res.NoDevice? <==> f.default.None?)
            && (res.NoSuchUser? <==> f.default.Some? && op.user.None?)
            && (if res.Done? then forall s :: !CheckClaimed(g, s).Done? else g == f)
  {
    ReleaseRefines(f, k, op);
    if k.holder.Some? {
      assert CheckClaimed(f, k.holder.value.sender).Done?;
    }
  }

  /** The check made before the operations on the default device tells why it refuses. */
  lemma CheckedExactly(f: Fleet, k: Desk, sender: string)
    requires Represents(f, k) && IsBusName(sender)
    ensures CheckClaimed(f, sender) ==
            if f.default.None? then NoDevice
            else if k.holder.None? then NotClaimed
            else if k.holder.value.sender != sender then SenderNotEqual else Done
  {
  }

  /** Entry i is the one found: the first of its name, which is not empty. */
  ghost predicate FirstNamed(infos: seq<DeviceInfo>, name: string, i: int) {
    && 0 <= i < |infos| && name != "" && infos[i].name == name
    && forall j | 0 <= j < i :: infos[j].name != name
  }

  lemma {:induction false} FoundIsFirst(infos: seq<DeviceInfo>, name: string) returns (i: int)
    ensures FindInfo(infos, name).Some? ==> FirstNamed(infos, name, i) && FindInfo(infos, name).value == infos[i]
    ensures FindInfo(infos, name).None? ==> forall j :: !FirstNamed(infos, name, j)
  {
    if infos == [] || name == "" {
      i := -1;
    } else if infos[0].name == name {
      i := 0;
    } else {
      var p := FoundIsFirst(infos[1..], name);
      i := p + 1;
      if FindInfo(infos, name).None? {
        forall j ensures !FirstNamed(infos, name, j) {
          assert !FirstNamed(infos[1..], name, j - 1);
        }
      }
    }
  }

  /**
    The default device changes exactly if the first device of that name is available and
    nobody holds any device; a failed save is reported, but the change stands.
   */
  lemma DefaultChangesExactly(f: Fleet, k: Desk, op: Op) returns (i: int)
    requires Represents(f, k) && op.SetDefault?
    ensures var (g, res) := Step(f, op);
            && (res.Done? || res.SaveFailed? <==>
                  && FirstNamed(f.infos, op.name, i) && f.infos[i].available
                  && forall d | 0 <= d < |f.devices| :: f.devices[d].sender == "")
            && (if res.Done? || res.SaveFailed?
                then g == f.(default := Some(f.infos[i].index)) && (res.SaveFailed? <==> op.saveFails) else g == f)
            && (res.NotFound? <==> forall j :: !FirstNamed(f.infos, op.name, j))
            && (res.Unavailable? <==> FirstNamed(f.infos, op.name, i) && !f.infos[i].available)
            && (FirstNamed(f.infos, op.name, i) && f.infos[i].available && !res.Done? && !res.SaveFailed? ==>
                  res == if f.default == Some(f.infos[i].index) then TargetClaimed else OldDefaultClaimed)
  {
    i := FoundIsFirst(f.infos, op.name);
    if k.holder.Some? {
      assert f.devices[f.default.value].sender != "";
    }
  }

  // ---------- the devices and the manager as they are ----------

  class Device {
    var sender: string
    var user: UserInfo

    constructor ()
      ensures AsHold() == FREE
    {
      sender, user := "", NO_USER;
    }

    function AsHold(): Hold
      reads this
    {
      Hold(sender, user)
    }

    method CheckClaimed(caller: string) returns (res: Outcome)
      ensures res.Done? <==> sender != "" && caller == sender
      ensures res.NotClaimed? <==> AsHold().sender == FREE.sender
      ensures !res.Done? && !res.NotClaimed? ==> res.SenderNotEqual?
    {
      if sender == "" {
        return NotClaimed;
      }
      if sender != caller {
        return SenderNotEqual;
      }
      return Done;
    }

    /** The device is free afterwards whatever the driver answers. */
    method Release()
      modifies this
      ensures AsHold() == FREE
    {
      sender, user := "", NO_USER;
    }

    method Claim(caller: string, userInfo: UserInfo, claimed: bool, answer: DriverAnswer) returns (res: Outcome)
      modifies this
      ensures AsHold() == DeviceCall(old(AsHold()), caller, userInfo, claimed, answer).0
      ensures res == DeviceCall(old(AsHold()), caller, userInfo, claimed, answer).1
    {
      var curClaimed := sender != "";
      if claimed {
        if curClaimed {
          return IsClaimed;
        } else {
          if answer == Refused || answer == TimedOut {
            return DriverError;
          }
          sender := caller;
          user := userInfo;
        }
      } else {
        if curClaimed {
          if sender != caller {
            return SenderNotEqual;
          }
          Release();
        } else {
          return NotClaimed;
        }
      }
      return Done;
    }

    method HandleNameLost(name: string) returns (handled: bool)
      modifies this
      ensures handled == (old(sender) == name)
      ensures AsHold() == if handled then FREE else old(AsHold())
    {
      if sender != name {
        return false;
      }
      Release();
      return true;
    }
  }

  function Holds(devices: seq<Device>): (holds: seq<Hold>)
    reads devices
    ensures |holds| == |devices| && forall i | 0 <= i < |devices| :: holds[i] == devices[i].AsHold()
  {
    seq(|devices|, i requires 0 <= i < |devices| reads devices => devices[i].AsHold())
  }

  lemma UpdateTwice(s: seq<Hold>, d: nat, x: Hold, y: Hold)
    requires d < |s|
    ensures s[d := x][d := y] == s[d := y]
    ensures s[d := s[d]] == s
  {
  }

  /** What is left of a claim after its two calls to the default device. */
  lemma ReclaimByParts(f: Fleet, sender: string, user: UserInfo, answer: DriverAnswer)
    requires f.default.Some? && f.default.value < |f.devices|
    ensures var d := f.default.value;
            var freed := Preempt(f.devices[d], f.claimInfo.sender);
            var devices := f.devices[d := freed.0];
            var held := DeviceCall(devices[d], sender, user, true, answer);
            var after := Reclaim(f, sender, user, answer);
            if !freed.1.Done? then after == (f.(devices := devices), freed.1)
            else if !held.1.Done? then after == (f.(devices := devices[d := held.0]), held.1)
            else after == (f.(devices := devices[d := held.0], claimInfo := Hold(sender, user)), held.1)
  {
    var d := f.default.value;
    var freed := Preempt(f.devices[d], f.claimInfo.sender);
    var held := ClaimDevice(freed.0, sender, user, answer);
    UpdateTwice(f.devices, d, freed.0, held.0);
  }

  lemma HoldsUpdated(devices: seq<Device>, before: seq<Hold>, i: nat)
    requires i < |devices| == |before|
    requires forall j | 0 <= j < |devices| && j != i :: devices[j].AsHold() == before[j]
    ensures Holds(devices) == before[i := devices[i].AsHold()]
  {
  }

  lemma {:induction false} FirstHeldByIs(devices: seq<Hold>, name: string, i: nat)
    requires i < |devices| && devices[i].sender == name && forall j | 0 <= j < i :: devices[j].sender != name
    ensures FirstHeldBy(devices, name) == i
  {
  }

  lemma {:induction false} FindInfoFrom(infos: seq<DeviceInfo>, name: string, i: nat)
    requires name != "" && i <= |infos| && forall j | 0 <= j < i :: infos[j].name != name
    requires i < |infos| ==> infos[i].name == name
    ensures FindInfo(infos, name) == if i < |infos| then Some(infos[i]) else None
  {
    if i > 0 {
      FindInfoFrom(infos[1..], name, i - 1);
    }
  }

  class Manager {
    const allDevices: seq<Device>
    const infos: seq<DeviceInfo>
    var defaultDevice: Device?
    var claimInfo: Hold
    ghost var defaultIndex: Option<nat>

    ghost predicate Valid()
      reads this
    {
      && (forall i, j | 0 <= i < j < |allDevices| :: allDevices[i] != allDevices[j])
      && Proper(infos, |allDevices|)
      && (defaultDevice == null <==> defaultIndex.None?)
      && (defaultIndex.Some? ==> defaultIndex.value < |allDevices| && allDevices[defaultIndex.value] == defaultDevice)
    }

    ghost function View(): (f: Fleet)
      reads this, allDevices
      requires Valid()
      ensures |f.devices| == |allDevices|
    {
      Fleet(Holds(allDevices), defaultIndex, claimInfo, infos)
    }

    constructor (devices: seq<Device>, infos: seq<DeviceInfo>)
      requires forall i, j | 0 <= i < j < |devices| :: devices[i] != devices[j]
      requires Proper(infos, |devices|) && forall d | d in devices :: d.AsHold() == FREE
      ensures Valid() && allDevices == devices && this.infos == infos
      ensures Represents(View(), Desk(None, None))
    {
      allDevices, this.infos := devices, infos;
      defaultDevice, claimInfo, defaultIndex := null, FREE, None;
    }

    /** A call to the default device changes no other device. */
    method ClaimDefault(caller: string, userInfo: UserInfo, claimed: bool, answer: DriverAnswer) returns (res: Outcome)
      requires Valid() && defaultDevice != null
      modifies allDevices
      ensures var before, d := old(Holds(allDevices)), defaultIndex.value;
              && Holds(allDevices) == before[d := DeviceCall(before[d], caller, userInfo, claimed, answer).0]
              && res == DeviceCall(before[d], caller, userInfo, claimed, answer).1
    {
      ghost var before := Holds(allDevices);
      res := defaultDevice.Claim(caller, userInfo, claimed, answer);
      HoldsUpdated(allDevices, before, defaultIndex.value);
    }

    method PreemptDefault() returns (res: Outcome)
      requires Valid() && defaultDevice != null
      modifies allDevices
      ensures var before, d := old(Holds(allDevices)), defaultIndex.value;
              && Holds(allDevices) == before[d := Preempt(before[d], claimInfo.sender).0]
              && res == Preempt(before[d], claimInfo.sender).1
    {
      ghost var before, d := Holds(allDevices), defaultIndex.value;
      if defaultDevice.sender != "" {
        res := ClaimDefault(claimInfo.sender, claimInfo.user, false, Answered);
      } else {
        UpdateTwice(before, d, before[d], before[d]);
        res := Done;
      }
    }

    /** The part of Claim that takes the device, from whoever holds it. */
    method ClaimAnew(caller: string, userInfo: UserInfo, answer: DriverAnswer) returns (res: Outcome)
      requires Valid() && defaultDevice != null
      modifies this`claimInfo, allDevices
      ensures View() == Reclaim(old(View()), caller, userInfo, answer).0
      ensures res == Reclaim(old(View()), caller, userInfo, answer).1
    {
      ghost var f := View();
      ReclaimByParts(f, caller, userInfo, answer);
      res := PreemptDefault();
      if res != Done {
        return;
      }
      res := ClaimDefault(caller, userInfo, true, answer);
      if res != Done {
        return;
      }
      claimInfo := Hold(caller, userInfo);
    }

    method Claim(caller: string, userInfo: Option<UserInfo>, claimed: bool, answer: DriverAnswer) returns (res: Outcome)
      requires Valid()
      modifies this`claimInfo, allDevices
      ensures var op := if claimed then Op.Claim(caller, userInfo, answer) else Op.Release(caller, userInfo);
              View() == Step(old(View()), op).0 && res == Step(old(View()), op).1
    {
      if defaultDevice == null {
        return NoDevice;
      }
      if userInfo == None {
        return NoSuchUser;
      }
      if claimed {
        res := ClaimAnew(caller, userInfo.value, answer);
      } else {
        res := ClaimDefault(caller, userInfo.value, claimed, answer);
      }
    }

    method LoseAt(i: nat, name: string) returns (handled: bool)
      requires Valid() && i < |allDevices|
      modifies allDevices[i]
      ensures handled == (old(Holds(allDevices))[i].sender == name)
      ensures Holds(allDevices) == if handled then old(Holds(allDevices))[i := FREE] else old(Holds(allDevices))
    {
      ghost var before := Holds(allDevices);
      handled := allDevices[i].HandleNameLost(name);
      HoldsUpdated(allDevices, before, i);
    }

    method FreeFirst(name: string)
      requires Valid()
      modifies allDevices
      ensures var before := old(Holds(allDevices));
              Holds(allDevices) ==
              if FirstHeldBy(before, name) < |before| then before[FirstHeldBy(before, name) := FREE] else before
    {
      ghost var before := Holds(allDevices);
      for i := 0 to |allDevices|
        invariant Holds(allDevices) == before
        invariant forall j | 0 <= j < i :: before[j].sender != name
      {
        var handled := LoseAt(i, name);
        if handled {
          FirstHeldByIs(before, name, i);
          return;
        }
      }
    }

    /** The owner of a bus name is gone; the search stops at the first device it held. */
    method NameOwnerLost(name: string)
      requires Valid()
      modifies allDevices
      ensures View() == Step(old(View()), NameLost(name)).0
    {
      FreeFirst(name);
    }

    method SetDefaultDeviceWithInfo(info: DeviceInfo) returns (res: Outcome)
      requires Valid() && info.index < |allDevices|
      modifies this`defaultDevice, this`defaultIndex
      ensures Valid()
      ensures res == if !info.available then Unavailable
                     else if allDevices[info.index].sender != "" then TargetClaimed
                     else if old(defaultDevice) != null && old(defaultDevice).sender != "" then OldDefaultClaimed
                     else Done
      ensures defaultIndex == if res.Done? then Some(info.index) else old(defaultIndex)
    {
      if !info.available {
        return Unavailable;
      }
      var dev := allDevices[info.index];
      if dev.sender != "" {
        return TargetClaimed;
      }
      if defaultDevice != null {
        if defaultDevice.sender != "" {
          return OldDefaultClaimed;
        }
      }
      defaultDevice := dev;
      defaultIndex := Some(info.index);
      return Done;
    }

    method SetDefaultDevice(name: string, saveFails: bool) returns (res: Outcome)
      requires Valid()
      modifies this`defaultDevice, this`defaultIndex
      ensures Valid()
      ensures View() == Step(old(View()), SetDefault(name, saveFails)).0
      ensures res == Step(old(View()), SetDefault(name, saveFails)).1
    {
      var i := 0;
      while i < |infos| && infos[i].name != name
        invariant 0 <= i <= |infos|
        invariant forall j | 0 <= j < i :: infos[j].name != name
      {
        i := i + 1;
      }
      if i == |infos| || infos[i].name == "" {
        if name != "" {
          FindInfoFrom(infos, name, i);
        }
        return NotFound;
      }
      FindInfoFrom(infos, name, i);
      assert infos[i] in infos;
      res := SetDefaultDeviceWithInfo(infos[i]);
      if res == Done && saveFails {
        res := SaveFailed;
      }
    }

    /** What every later operation on the default device asks first. */
    method CheckCaller(caller: string) returns (res: Outcome)
      requires Valid()
      ensures res == CheckClaimed(View(), caller)
    {
      if defaultDevice == null {
        return NoDevice;
      }
      res := defaultDevice.CheckClaimed(caller);
    }
  }
}
