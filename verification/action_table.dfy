/**
  Running biometric actions and the channels their status goes to
  (service/charaDataManger/manager.go). An action is entered under a string made of the
  caller's bus name and the kind of biometric; releasing it closes its channel, and a send
  on a closed channel or a second close would bring the daemon down.
 */
module ActionTables {
  import opened Collections

  // ---------- the key ----------

  function Digit(d: int): char
    requires 0 <= d < 10
  {
    "0123456789"[d]
  }

  function Digits(n: nat): (s: string)
    ensures s != "" && forall c | c in s :: c in "0123456789"
  {
    if n < 10 then [Digit(n)] else Digits(n / 10) + [Digit(n % 10)]
  }

  function Itoa(n: int): string {
    if n < 0 then "-" + Digits(-n) else Digits(n)
  }

  function KeyOf(sender: string, charaType: int): string {
    sender + " " + Itoa(charaType)
  }

  lemma DigitInjective(a: int, b: int)
    requires 0 <= a < 10 && 0 <= b < 10 && Digit(a) == Digit(b)
    ensures a == b
  {
  }

  lemma {:induction false} DigitsInjective(a: nat, b: nat)
    requires Digits(a) == Digits(b)
    ensures a == b
  {
    var s, t := Digits(a), Digits(b);
    if a >= 10 && b >= 10 {
      assert s[..|s| - 1] == Digits(a / 10) && t[..|t| - 1] == Digits(b / 10);
      assert s[|s| - 1] == Digit(a % 10) && t[|t| - 1] == Digit(b % 10);
      DigitsInjective(a / 10, b / 10);
      DigitInjective(a % 10, b % 10);
    } else if a < 10 && b < 10 {
      assert s[0] == Digit(a) && t[0] == Digit(b);
      DigitInjective(a, b);
    }
  }

  lemma ItoaParts(n: int)
    ensures Itoa(n) != ""
    ensures n < 0 ==> Itoa(n)[0] == '-' && Itoa(n)[1..] == Digits(-n)
    ensures n >= 0 ==> Itoa(n) == Digits(n) && Itoa(n)[0] in "0123456789"
  {
    if n >= 0 {
      assert Digits(n)[0] in Digits(n);
    } else {
      assert ("-" + Digits(-n))[1..] == Digits(-n);
    }
  }

  lemma ItoaInjective(a: int, b: int)
    requires Itoa(a) == Itoa(b)
    ensures a == b
  {
    ItoaParts(a);
    ItoaParts(b);
    if a < 0 && b < 0 {
      DigitsInjective(-a, -b);
    } else if a >= 0 && b >= 0 {
      DigitsInjective(a, b);
    }
  }

  lemma NoSpaceInItoa(n: int, i: nat)
    requires i < |Itoa(n)|
    ensures Itoa(n)[i] != ' '
  {
    ItoaParts(n);
    if n >= 0 {
      assert Itoa(n)[i] in Digits(n);
    } else if i > 0 {
      assert Itoa(n)[i] == Digits(-n)[i - 1];
      assert Digits(-n)[i - 1] in Digits(-n);
    }
  }

  /** The blank between the parts is the last one of the key. */
  lemma LastBlank(s: string, m: int, p: nat)
    requires |s| <= p < |KeyOf(s, m)| && KeyOf(s, m)[p] == ' '
    ensures p == |s|
  {
    if p > |s| {
      NoSpaceInItoa(m, p - |s| - 1);
    }
  }

  /** The parts of a key can be read back, whatever the caller is called. */
  lemma KeyInjective(s: string, m: int, t: string, n: int)
    requires KeyOf(s, m) == KeyOf(t, n)
    ensures s == t && m == n
  {
    var k := KeyOf(s, m);
    assert k[|s|] == ' ' && k[|t|] == ' ';
    if |s| <= |t| {
      LastBlank(s, m, |t|);
    } else {
      LastBlank(t, n, |s|);
    }
    assert s == k[..|s|] && t == k[..|t|];
    assert k[|s| + 1..] == Itoa(m) && k[|t| + 1..] == Itoa(n);
    ItoaInjective(m, n);
  }

  // ---------- the table ----------

  datatype ActionKind = Enroll | Verify

  const FACE := 4
  const INVALID_CODE := -1

  datatype Action = Action(sender: string, receiver: string, kind: ActionKind, charaType: int, id: string, code: int,
      chan: nat)

  datatype Notice = Notice(id: string, sender: string, code: int, msg: string)

  datatype ChanEvent = Sent(chan: nat, notice: Notice) | Closed(chan: nat)

  /** log is what has been done on any channel so far, in order. */
  datatype System = System(
    actions: map<string, Action>,
    log: seq<ChanEvent>,
    usedIds: set<string>,
    usedChans: set<nat>)

  const EMPTY := System(map[], [], {}, {})

  datatype Op =
    | Gen(key: string, sender: string, receiver: Option<string>, kind: ActionKind, charaType: int, id: string,
        chan: nat)
    | Release(id: string)
    | DriverStatus(id: string, code: int, msg: string)
    | OwnerChanged(name: string, oldOwner: string, newOwner: string)

  function DisconnectCode(charaType: int, bySender: bool): int {
    if bySender then (if charaType == FACE then 14 else 10) else (if charaType == FACE then 13 else 9)
  }

  /** What an action is told when a bus name changes hands; both ends may be that name. */
  function DisconnectEvents(a: Action, name: string): seq<ChanEvent> {
    (if a.sender == name
     then [Sent(a.chan, Notice(a.id, a.sender, DisconnectCode(a.charaType, true), "Sender Disconnected"))]
     else []) +
    (if a.receiver == name
     then [Sent(a.chan, Notice(a.id, a.sender, DisconnectCode(a.charaType, false), "driver Disconnected"))]
     else [])
  }

  /** What is done on the channel of one action. */
  function EventsFor(a: Action, op: Op): seq<ChanEvent> {
    match op
    case Gen(_, _, _, _, _, _, _) => []
    case Release(id) => if a.id == id then [Closed(a.chan)] else []
    case DriverStatus(id, code, msg) => if a.id == id then [Sent(a.chan, Notice(id, a.sender, code, msg))] else []
    case OwnerChanged(name, oldOwner, newOwner) =>
      if oldOwner == "" && newOwner != "" then [] else DisconnectEvents(a, name)
  }

  function EventsInOrder(actions: map<string, Action>, order: seq<string>, op: Op): seq<ChanEvent>
    requires forall k | k in order :: k in actions
  {
    if order == [] then []
    else EventsInOrder(actions, order[..|order| - 1], op) + EventsFor(actions[order[|order| - 1]], op)
  }

  ghost predicate Enumerates(order: seq<string>, keys: set<string>) {
    && (forall k :: k in order <==> k in keys)
    && (forall i, j | 0 <= i < j < |order| :: order[i] != order[j])
  }

  function ActionsAfter(actions: map<string, Action>, op: Op): map<string, Action> {
    match op
    case Gen(key, sender, receiver, kind, charaType, id, chan) =>
      if key in actions || receiver.None? then actions
      else actions[key := Action(sender, receiver.value, kind, charaType, id, INVALID_CODE, chan)]
    case Release(id) => map k | k in actions && actions[k].id != id :: actions[k]
    case DriverStatus(id, code, _) =>
      map k | k in actions :: if actions[k].id == id then actions[k].(code := code) else actions[k]
    case OwnerChanged(_, _, _) => actions
  }

  /** Ids and channels are new whenever an action is to be entered. */
  ghost predicate Fresh(s: System, op: Op) {
    op.Gen? ==> op.id !in s.usedIds && op.chan !in s.usedChans
  }

  /** One call; the entries are walked in some order, each once. */
  ghost predicate Next(s: System, op: Op, t: System) {
    && t.actions == ActionsAfter(s.actions, op)
    && t.usedIds == s.usedIds + (if op.Gen? then {op.id} else {})
    && t.usedChans == s.usedChans + (if op.Gen? then {op.chan} else {})
    && exists order :: Enumerates(order, s.actions.Keys) && t.log == s.log + EventsInOrder(s.actions, order, op)
  }

  // ---------- what holds at every moment ----------

  /** The actions have ids and channels of their own, and every channel of an action is open. */
  ghost predicate Sound(s: System) {
    && (forall k | k in s.actions :: s.actions[k].id in s.usedIds && s.actions[k].chan in s.usedChans)
    && Apart(s.actions)
    && (forall e | e in s.log :: e.chan in s.usedChans)
    && (forall k | k in s.actions :: Closed(s.actions[k].chan) !in s.log)
  }

  ghost predicate Apart(actions: map<string, Action>) {
    forall k, l | k in actions && l in actions && k != l ::
      actions[k].id != actions[l].id && actions[k].chan != actions[l].chan
  }

  /** Nothing happens on a channel after it was closed, not even a second close. */
  ghost predicate Clean(log: seq<ChanEvent>) {
    forall i, j | 0 <= i < j < |log| && log[i].Closed? :: log[j].chan != log[i].chan
  }

  lemma EventsAreOwn(a: Action, op: Op)
    ensures forall e | e in EventsFor(a, op) :: e.chan == a.chan && (e.Closed? <==> op.Release? && a.id == op.id)
    ensures op.Release? ==> |EventsFor(a, op)| <= 1
  {
  }

  /** A clean log stays clean under what is done for one more action whose channel is still open. */
  lemma CleanAppend(log: seq<ChanEvent>, more: seq<ChanEvent>, chan: nat)
    requires Clean(log) && Closed(chan) !in log
    requires forall e | e in more :: e.chan == chan
    requires |more| <= 1 || forall e | e in more :: !e.Closed?
    ensures Clean(log + more)
  {
    var all := log + more;
    forall i | 0 <= i < |log| && all[i].Closed? ensures all[i].chan != chan {
      assert all[i] == log[i] && log[i] in log;
    }
    assert forall j | |log| <= j < |all| :: all[j] == more[j - |log|] && all[j] in more;
  }

  /** The channel of an action that the walk has not reached is not closed by it. */
  lemma {:induction false} WalkClosesOwn(actions: map<string, Action>, order: seq<string>, op: Op, last: string)
    requires Apart(actions) && last in actions && last !in order
    requires forall k | k in order :: k in actions
    ensures Closed(actions[last].chan) !in EventsInOrder(actions, order, op)
  {
    if order != [] {
      var init, k := order[..|order| - 1], order[|order| - 1];
      assert k in order && forall l | l in init :: l in order;
      WalkClosesOwn(actions, init, op, last);
      EventsAreOwn(actions[k], op);
    }
  }

  lemma NotInEither<T>(a: seq<T>, b: seq<T>, x: T)
    requires x !in a && x !in b
    ensures x !in a + b
  {
  }

  lemma WalkStepClean(log: seq<ChanEvent>, actions: map<string, Action>, init: seq<string>, last: string, op: Op)
    requires Apart(actions) && last in actions && last !in init && (forall k | k in init :: k in actions)
    requires Closed(actions[last].chan) !in log && Clean(log + EventsInOrder(actions, init, op))
    ensures Clean(log + EventsInOrder(actions, init + [last], op))
  {
    var before := EventsInOrder(actions, init, op);
    WalkClosesOwn(actions, init, op, last);
    NotInEither(log, before, Closed(actions[last].chan));
    EventsAreOwn(actions[last], op);
    CleanAppend(log + before, EventsFor(actions[last], op), actions[last].chan);
    LogStep(log, log + before, actions, init, last, op);
  }

  lemma {:induction false} WalkKeepsClean(log: seq<ChanEvent>, actions: map<string, Action>, order: seq<string>, op: Op)
    requires Clean(log) && Apart(actions) && forall k | k in order :: k in actions && Closed(actions[k].chan) !in log
    requires forall i, j | 0 <= i < j < |order| :: order[i] != order[j]
    ensures Clean(log + EventsInOrder(actions, order, op))
  {
    if order != [] {
      var init, last := order[..|order| - 1], order[|order| - 1];
      assert order == init + [last] && last !in init;
      WalkKeepsClean(log, actions, init, op);
      WalkStepClean(log, actions, init, last, op);
    } else {
      assert log + [] == log;
    }
  }

  lemma {:induction false} EventSource(actions: map<string, Action>, order: seq<string>, op: Op, e: ChanEvent)
        returns (k: string)
    requires (forall k | k in order :: k in actions) && e in EventsInOrder(actions, order, op)
    ensures k in actions && e in EventsFor(actions[k], op)
  {
    var init, last := order[..|order| - 1], order[|order| - 1];
    assert last in order && forall l | l in init :: l in order;
    if e in EventsFor(actions[last], op) {
      k := last;
    } else {
      k := EventSource(actions, init, op, e);
    }
  }

  lemma {:induction false} NoEvents(actions: map<string, Action>, order: seq<string>, op: Op)
    requires op.Gen? && forall k | k in order :: k in actions
    ensures EventsInOrder(actions, order, op) == []
  {
    if order != [] {
      assert forall k | k in order[..|order| - 1] :: k in order;
      NoEvents(actions, order[..|order| - 1], op);
    }
  }

  lemma ApartAdd(actions: map<string, Action>, key: string, a: Action)
    requires Apart(actions) && forall k | k in actions :: actions[k].id != a.id && actions[k].chan != a.chan
    ensures Apart(actions[key := a])
  {
  }

  lemma GenKeepsSound(s: System, op: Op, t: System)
    requires Sound(s) && op.Gen? && Fresh(s, op) && Next(s, op, t)
    ensures Sound(t) && t.log == s.log
  {
    var order :| Enumerates(order, s.actions.Keys) && t.log == s.log + EventsInOrder(s.actions, order, op);
    NoEvents(s.actions, order, op);
    assert Closed(op.chan) !in s.log;
    if op.key !in s.actions && op.receiver.Some? {
      ApartAdd(s.actions, op.key, t.actions[op.key]);
    }
  }

  /** What a call does on a channel leaves the channels of the actions that stay open. */
  lemma EventIsHarmless(s: System, op: Op, order: seq<string>, e: ChanEvent)
    requires Sound(s) && !op.Gen? && (forall k | k in order :: k in s.actions)
    requires e in EventsInOrder(s.actions, order, op)
    ensures e.chan in s.usedChans
    ensures forall k | k in ActionsAfter(s.actions, op) :: e != Closed(s.actions[k].chan)
  {
    var l := EventSource(s.actions, order, op, e);
    EventsAreOwn(s.actions[l], op);
  }

  lemma OthersKeepSound(s: System, op: Op, t: System)
    requires Sound(s) && !op.Gen? && Next(s, op, t)
    ensures Sound(t)
  {
    var order :| Enumerates(order, s.actions.Keys) && t.log == s.log + EventsInOrder(s.actions, order, op);
    assert forall k | k in t.actions ::
        k in s.actions && t.actions[k].id == s.actions[k].id && t.actions[k].chan == s.actions[k].chan;
    forall e | e in t.log
      ensures e.chan in t.usedChans && (forall k | k in t.actions :: e != Closed(t.actions[k].chan))
    {
      if e !in s.log {
        EventIsHarmless(s, op, order, e);
      }
    }
  }

  lemma StepKeepsSound(s: System, op: Op, t: System)
    requires Sound(s) && Clean(s.log) && Fresh(s, op) && Next(s, op, t)
    ensures Sound(t) && Clean(t.log)
  {
    if op.Gen? {
      GenKeepsSound(s, op, t);
    } else {
      OthersKeepSound(s, op, t);
      var order :| Enumerates(order, s.actions.Keys) && t.log == s.log + EventsInOrder(s.actions, order, op);
      WalkKeepsClean(s.log, s.actions, order, op);
    }
  }

  ghost predicate ProperKey(op: Op) {
    op.Gen? ==> op.key == KeyOf(op.sender, op.charaType)
  }

  ghost predicate IsRun(states: seq<System>, ops: seq<Op>) {
    && |states| == |ops| + 1 && states[0] == EMPTY
    && forall i | 0 <= i < |ops| :: ProperKey(ops[i]) && Fresh(states[i], ops[i])
        && Next(states[i], ops[i], states[i + 1])
  }

  lemma RunPrefix(states: seq<System>, ops: seq<Op>)
    requires IsRun(states, ops) && ops != []
    ensures IsRun(states[..|ops|], ops[..|ops| - 1])
  {
    var states', ops' := states[..|ops|], ops[..|ops| - 1];
    forall i | 0 <= i < |ops'|
      ensures ProperKey(ops'[i]) && Fresh(states'[i], ops'[i]) && Next(states'[i], ops'[i], states'[i + 1])
    {
      assert states'[i] == states[i] && states'[i + 1] == states[i + 1] && ops'[i] == ops[i];
    }
  }

  /**
    On every run with fresh ids and channels, in whatever order the entries are walked, every
    channel is closed at most once and nothing is sent on it afterwards.
   */
  lemma {:induction false} ChannelsAreSafe(states: seq<System>, ops: seq<Op>)
    requires IsRun(states, ops)
    ensures Sound(states[|ops|]) && Clean(states[|ops|].log)
  {
    if ops != [] {
      var n := |ops| - 1;
      RunPrefix(states, ops);
      ChannelsAreSafe(states[..n + 1], ops[..n]);
      StepKeepsSound(states[n], ops[n], states[n + 1]);
    }
  }

  // ---------- the keys ----------

  ghost predicate Keyed(actions: map<string, Action>) {
    forall k | k in actions :: k == KeyOf(actions[k].sender, actions[k].charaType)
  }

  lemma {:induction false} RunsAreKeyed(states: seq<System>, ops: seq<Op>)
    requires IsRun(states, ops)
    ensures Keyed(states[|ops|].actions)
  {
    if ops != [] {
      var n := |ops| - 1;
      RunPrefix(states, ops);
      RunsAreKeyed(states[..n + 1], ops[..n]);
      assert Next(states[n], ops[n], states[n + 1]) && ProperKey(ops[n]);
    }
  }

  /** At every moment a caller has at most one action of each kind of biometric. */
  lemma OneActionPerCallerAndKind(states: seq<System>, ops: seq<Op>, k: string, l: string)
    requires IsRun(states, ops) && k in states[|ops|].actions && l in states[|ops|].actions
    ensures var s := states[|ops|];
            k == l <==> s.actions[k].sender == s.actions[l].sender && s.actions[k].charaType == s.actions[l].charaType
  {
    RunsAreKeyed(states, ops);
  }

  /**
    An action is refused exactly when the same caller already has one of the same kind, or
    the driver has no owner; no other caller's actions can make it fail.
   */
  lemma RefusedExactly(actions: map<string, Action>, op: Op)
    requires Keyed(actions) && op.Gen? && ProperKey(op)
    ensures ActionsAfter(actions, op).Keys == actions.Keys <==>
            op.receiver.None?
            || exists k | k in actions :: actions[k].sender == op.sender && actions[k].charaType == op.charaType
  {
    if op.key in actions {
      KeyInjective(op.sender, op.charaType, actions[op.key].sender, actions[op.key].charaType);
    } else if op.receiver.Some? {
      assert op.key in ActionsAfter(actions, op).Keys;
    }
  }

  // ---------- what one action is told ----------

  /** What has been done on one channel. */
  function On(log: seq<ChanEvent>, chan: nat): seq<ChanEvent> {
    if log == [] then []
    else On(log[..|log| - 1], chan) + if log[|log| - 1].chan == chan then [log[|log| - 1]] else []
  }

  lemma {:induction false} OnConcat(a: seq<ChanEvent>, b: seq<ChanEvent>, chan: nat)
    ensures On(a + b, chan) == On(a, chan) + On(b, chan)
  {
    if b != [] {
      OnConcat(a, b[..|b| - 1], chan);
      assert (a + b)[..|a + b| - 1] == a + b[..|b| - 1];
    } else {
      assert a + b == a;
    }
  }

  lemma {:induction false} OnAll(log: seq<ChanEvent>, chan: nat)
    ensures (forall e | e in log :: e.chan == chan) ==> On(log, chan) == log
    ensures (forall e | e in log :: e.chan != chan) ==> On(log, chan) == []
  {
    if log != [] {
      assert log == log[..|log| - 1] + [log[|log| - 1]];
      OnAll(log[..|log| - 1], chan);
    }
  }

  /** Of a walk an action hears what concerns it, once, wherever in the walk it stands. */
  lemma {:induction false} WalkOnOwn(actions: map<string, Action>, order: seq<string>, op: Op, k: string)
    requires Apart(actions) && k in actions && (forall l | l in order :: l in actions)
    requires forall i, j | 0 <= i < j < |order| :: order[i] != order[j]
    ensures On(EventsInOrder(actions, order, op), actions[k].chan)
            == if k in order then EventsFor(actions[k], op) else []
  {
    if order != [] {
      var init, last := order[..|order| - 1], order[|order| - 1];
      assert order == init + [last] && last !in init;
      WalkOnOwn(actions, init, op, k);
      EventsAreOwn(actions[last], op);
      OnConcat(EventsInOrder(actions, init, op), EventsFor(actions[last], op), actions[k].chan);
      OnAll(EventsFor(actions[last], op), actions[k].chan);
    }
  }

  /** The notice of a lost caller or driver; a face tells it with other codes than the rest. */
  function LossNotice(a: Action, ofCaller: bool): ChanEvent {
    var code := if a.charaType == 4 then (if ofCaller then 14 else 13) else (if ofCaller then 10 else 9);
    Sent(a.chan, Notice(a.id, a.sender, code, if ofCaller then "Sender Disconnected" else "driver Disconnected"))
  }

  lemma OnOwnChannel(s: System, op: Op, t: System, k: string)
    requires Sound(s) && Next(s, op, t) && k in s.actions
    ensures On(t.log, s.actions[k].chan) == On(s.log, s.actions[k].chan) + EventsFor(s.actions[k], op)
  {
    var order :| Enumerates(order, s.actions.Keys) && t.log == s.log + EventsInOrder(s.actions, order, op);
    assert k in order;
    WalkOnOwn(s.actions, order, op, k);
    OnConcat(s.log, EventsInOrder(s.actions, order, op), s.actions[k].chan);
  }

  lemma OwnEvents(a: Action, op: Op)
    ensures EventsFor(a, op) ==
            match op
            case Gen(_, _, _, _, _, _, _) => []
            case Release(id) => if id == a.id then [Closed(a.chan)] else []
            case DriverStatus(id, code, msg) =>
              if id == a.id then [Sent(a.chan, Notice(a.id, a.sender, code, msg))] else []
            case OwnerChanged(name, oldOwner, newOwner) =>
              if oldOwner == "" && newOwner != "" then []
              else (if name == a.sender then [LossNotice(a, true)] else [])
                   + (if name == a.receiver then [LossNotice(a, false)] else [])
  {
  }

  /**
    What a call does on the channel of an action: its release closes it, its driver's status
    goes to it alone, the loss of its caller and of its driver are told, in this order, and
    nothing else is heard, whatever the order in which the table is walked.
   */
  lemma HearsExactly(s: System, op: Op, t: System, k: string)
    requires Sound(s) && Next(s, op, t) && k in s.actions
    ensures var a := s.actions[k];
            On(t.log, a.chan) == On(s.log, a.chan) +
            match op
            case Gen(_, _, _, _, _, _, _) => []
            case Release(id) => if id == a.id then [Closed(a.chan)] else []
            case DriverStatus(id, code, msg) =>
              if id == a.id then [Sent(a.chan, Notice(a.id, a.sender, code, msg))] else []
            case OwnerChanged(name, oldOwner, newOwner) =>
              if oldOwner == "" && newOwner != "" then []
              else (if name == a.sender then [LossNotice(a, true)] else [])
                   + (if name == a.receiver then [LossNotice(a, false)] else [])
  {
    OnOwnChannel(s, op, t, k);
    OwnEvents(s.actions[k], op);
  }

  /** What a call does to the table: it enters at most its own action, and changes the one it names alone. */
  lemma TableChangesExactly(s: System, op: Op, t: System, k: string)
    requires Next(s, op, t)
    ensures op.Gen? ==>
              (k in t.actions <==> k in s.actions || (k == op.key && op.receiver.Some?))
              && (k in s.actions ==> t.actions[k] == s.actions[k])
              && (k in t.actions && k !in s.actions ==>
                    t.actions[k] == Action(op.sender, op.receiver.value, op.kind, op.charaType, op.id, -1, op.chan))
    ensures !op.Gen? ==> (k in t.actions <==> k in s.actions && !(op.Release? && s.actions[k].id == op.id))
    ensures !op.Gen? && k in t.actions ==>
              t.actions[k] == if op.DriverStatus? && s.actions[k].id == op.id
                              then s.actions[k].(code := op.code) else s.actions[k]
  {
  }

  // ---------- the manager as it is ----------

  /** A Go channel: sending and closing are only possible while it is open. */
  class Channel {
    const name: nat
    var closed: bool
    var sent: seq<Notice>

    constructor (name: nat)
      ensures this.name == name && !closed && sent == []
    {
      this.name, closed, sent := name, false, [];
    }

    method Send(n: Notice)
      requires !closed
      modifies this`sent
      ensures sent == old(sent) + [n]
    {
      sent := sent + [n];
    }

    method Close()
      requires !closed
      modifies this`closed
      ensures closed
    {
      closed := true;
    }
  }

  /** Entering or refusing an action touches no channel. */
  lemma GenPerforms(s: System, op: Op, t: System)
    requires Sound(s) && op.Gen? && Fresh(s, op) && t.actions == ActionsAfter(s.actions, op) && t.log == s.log
    requires t.usedIds == s.usedIds + {op.id} && t.usedChans == s.usedChans + {op.chan}
    ensures Next(s, op, t) && Sound(t)
  {
    var order := EnumerationExists(s.actions.Keys);
    NoEvents(s.actions, order, op);
    assert s.log + [] == s.log;
    GenKeepsSound(s, op, t);
  }

  lemma {:induction false} EnumerationExists(keys: set<string>) returns (order: seq<string>)
    ensures Enumerates(order, keys)
  {
    if keys != {} {
      var k :| k in keys;
      order := EnumerationExists(keys - {k});
      order := order + [k];
    } else {
      order := [];
    }
  }

  /** The walk over a map has taken the keys outside rest, in this order. */
  ghost predicate Walked(order: seq<string>, keys: set<string>, rest: set<string>) {
    rest <= keys && Enumerates(order, keys - rest)
  }

  lemma WalkedStep(order: seq<string>, keys: set<string>, rest: set<string>, k: string)
    requires Walked(order, keys, rest) && k in rest
    ensures Walked(order + [k], keys, rest - {k})
  {
    assert forall i | 0 <= i < |order| :: order[i] in order;
  }

  /** A walk that has taken every key performs the call. */
  lemma WalkPerforms(s: System, op: Op, t: System, order: seq<string>)
    requires Sound(s) && !op.Gen? && Walked(order, s.actions.Keys, {})
    requires t.actions == ActionsAfter(s.actions, op) && t.log == s.log + EventsInOrder(s.actions, order, op)
    requires t.usedIds == s.usedIds && t.usedChans == s.usedChans
    ensures Next(s, op, t) && Sound(t)
  {
    assert Enumerates(order, s.actions.Keys);
    OthersKeepSound(s, op, t);
  }

  lemma LogStep(base: seq<ChanEvent>, log: seq<ChanEvent>, actions: map<string, Action>, order: seq<string>,
        k: string, op: Op)
    requires k in actions && forall l | l in order :: l in actions
    requires log == base + EventsInOrder(actions, order, op)
    ensures log + EventsFor(actions[k], op) == base + EventsInOrder(actions, order + [k], op)
  {
    EventsStep(actions, order, k, op);
    Reassociate(base, EventsInOrder(actions, order, op), EventsFor(actions[k], op));
  }

  lemma Reassociate<T>(a: seq<T>, b: seq<T>, c: seq<T>)
    ensures a + b + c == a + (b + c)
  {
  }

  lemma EventsStep(actions: map<string, Action>, order: seq<string>, k: string, op: Op)
    requires k in actions && forall l | l in order :: l in actions
    ensures EventsInOrder(actions, order + [k], op) == EventsInOrder(actions, order, op) + EventsFor(actions[k], op)
  {
    assert (order + [k])[..|order|] == order;
  }

  /** An action with the channel it reports on. */
  datatype Entry = Entry(action: Action, channel: Channel)

  function ActionsOf(entries: map<string, Entry>): map<string, Action> {
    map k | k in entries :: entries[k].action
  }

  function TellEntry(e: Entry, id: string, code: int): Entry {
    if e.action.id == id then e.(action := e.action.(code := code)) else e
  }

  ghost predicate ToldSoFar(entries: map<string, Entry>, after: map<string, Entry>, rest: set<string>, id: string,
        code: int)
  {
    && after.Keys == entries.Keys
    && forall k | k in entries :: after[k] == if k in rest then entries[k] else TellEntry(entries[k], id, code)
  }

  lemma ToldStep(entries: map<string, Entry>, after: map<string, Entry>, rest: set<string>, k: string, id: string,
        code: int)
    requires ToldSoFar(entries, after, rest, id, code) && k in rest && k in entries
    ensures ToldSoFar(entries, after[k := TellEntry(after[k], id, code)], rest - {k}, id, code)
  {
  }

  /** The walk has taken out the named action from everything outside rest. */
  ghost predicate LeftSoFar(entries: map<string, Entry>, after: map<string, Entry>, rest: set<string>, id: string) {
    && (forall k :: k in after <==> k in entries && (k in rest || entries[k].action.id != id))
    && forall k | k in after :: after[k] == entries[k]
  }

  lemma LeftStep(entries: map<string, Entry>, after: map<string, Entry>, rest: set<string>, k: string, id: string)
    requires LeftSoFar(entries, after, rest, id) && k in rest && k in entries
    ensures LeftSoFar(entries, if entries[k].action.id == id then after - {k} else after, rest - {k}, id)
  {
  }

  lemma ReleasedActions(entries: map<string, Entry>, after: map<string, Entry>, id: string)
    requires LeftSoFar(entries, after, {}, id)
    ensures ActionsOf(after) == ActionsAfter(ActionsOf(entries), Release(id))
  {
  }

  lemma ToldActions(entries: map<string, Entry>, after: map<string, Entry>, id: string, code: int, msg: string)
    requires after.Keys == entries.Keys && forall k | k in entries :: after[k] == TellEntry(entries[k], id, code)
    ensures ActionsOf(after) == ActionsAfter(ActionsOf(entries), DriverStatus(id, code, msg))
  {
  }

  ghost predicate OwnChannels(entries: map<string, Entry>) {
    && (forall k | k in entries :: entries[k].channel.name == entries[k].action.chan)
    && (forall k, l | k in entries && l in entries && k != l :: entries[k].channel != entries[l].channel)
  }

  lemma SoundMeansOwnChannels(entries: map<string, Entry>)
    requires Apart(ActionsOf(entries))
    requires forall k | k in entries :: entries[k].channel.name == entries[k].action.chan
    ensures OwnChannels(entries)
  {
    var actions := ActionsOf(entries);
    forall k, l | k in entries && l in entries && k != l ensures entries[k].channel != entries[l].channel {
      assert actions[k].chan != actions[l].chan;
    }
  }

  class CharaDataManager {
    var actionMap: map<string, Entry>
    ghost var log: seq<ChanEvent>
    ghost var usedIds: set<string>
    ghost var usedChans: set<nat>

    ghost function View(): System
      reads this
    {
      System(ActionsOf(actionMap), log, usedIds, usedChans)
    }

    ghost function Channels(): set<Channel>
      reads this
    {
      set k | k in actionMap :: actionMap[k].channel
    }

    /** Every action in the table reports on its own channel, which is open. */
    ghost predicate Valid()
      reads this, Channels()
    {
      && Sound(View())
      && forall k | k in actionMap :: actionMap[k].channel.name == actionMap[k].action.chan
          && !actionMap[k].channel.closed
    }

    constructor ()
      ensures Valid() && View() == EMPTY
    {
      actionMap, log, usedIds, usedChans := map[], [], {}, {};
    }

    method GenActionId(sender: string, receiver: Option<string>, kind: ActionKind, charaType: int, id: string,
          channel: Channel)
      returns (res: Option<string>)
      requires Valid() && id !in usedIds && channel.name !in usedChans && !channel.closed
      modifies this
      ensures Valid()
      ensures Next(old(View()), Gen(KeyOf(sender, charaType), sender, receiver, kind, charaType, id, channel.name),
          View())
      ensures res == if KeyOf(sender, charaType) in old(actionMap) || receiver.None? then None else Some(id)
    {
      var key := KeyOf(sender, charaType);
      ghost var s, op := View(), Gen(key, sender, receiver, kind, charaType, id, channel.name);
      usedIds, usedChans := usedIds + {id}, usedChans + {channel.name};
      if key in actionMap {
        res := None;
      } else if receiver == None {
        res := None;
      } else {
        var action := Action(sender, receiver.value, kind, charaType, id, INVALID_CODE, channel.name);
        actionMap := actionMap[key := Entry(action, channel)];
        assert View().actions == s.actions[key := action];
        res := Some(id);
      }
      GenPerforms(s, op, View());
    }

    method Send(val: Entry, notice: Notice)
      requires !val.channel.closed
      modifies this`log, val.channel`sent
      ensures !val.channel.closed && log == old(log) + [Sent(val.action.chan, notice)]
    {
      val.channel.Send(notice);
      log := log + [Sent(val.action.chan, notice)];
    }

    method CloseIfNamed(key: string, id: string)
      requires key in actionMap && !actionMap[key].channel.closed
      modifies this`actionMap, this`log, actionMap[key].channel
      ensures log == old(log) + EventsFor(old(actionMap)[key].action, Release(id))
      ensures actionMap == if old(actionMap)[key].action.id == id then old(actionMap) - {key} else old(actionMap)
      ensures old(actionMap)[key].action.id != id ==> !old(actionMap)[key].channel.closed
    {
      var val := actionMap[key];
      if val.action.id == id {
        val.channel.Close();
        log := log + [Closed(val.action.chan)];
        actionMap := actionMap - {key};
      }
    }

    method TellIfNamed(key: string, id: string, code: int, msg: string)
      requires key in actionMap && !actionMap[key].channel.closed
      modifies this`actionMap, this`log, actionMap[key].channel`sent
      ensures log == old(log) + EventsFor(old(actionMap)[key].action, DriverStatus(id, code, msg))
      ensures actionMap == old(actionMap)[key := TellEntry(old(actionMap)[key], id, code)]
    {
      var val := actionMap[key];
      if val.action.id == id {
        Send(val, Notice(id, val.action.sender, code, msg));
        actionMap := actionMap[key := val.(action := val.action.(code := code))];
      }
    }

    method CloseEach(id: string) returns (ghost order: seq<string>)
      requires OwnChannels(actionMap) && forall k | k in actionMap :: !actionMap[k].channel.closed
      modifies this`actionMap, this`log, Channels()
      ensures Walked(order, old(actionMap).Keys, {})
      ensures LeftSoFar(old(actionMap), actionMap, {}, id)
      ensures forall k | k in actionMap :: !actionMap[k].channel.closed
      ensures log == old(log) + EventsInOrder(ActionsOf(old(actionMap)), order, Release(id))
    {
      ghost var base, op, entries := log, Release(id), actionMap;
      order := [];
      var rest := actionMap.Keys;
      while rest != {}
        invariant Walked(order, entries.Keys, rest)
        invariant LeftSoFar(entries, actionMap, rest, id)
        invariant forall k | k in actionMap :: !entries[k].channel.closed
        invariant log == base + EventsInOrder(ActionsOf(entries), order, op)
      {
        var key :| key in rest;
        LogStep(base, log, ActionsOf(entries), order, key, op);
        WalkedStep(order, entries.Keys, rest, key);
        LeftStep(entries, actionMap, rest, key, id);
        rest := rest - {key};
        order := order + [key];
        CloseIfNamed(key, id);
      }
    }

    /** The channel of a released action is closed, and the action leaves the table. */
    method ReleaseActionId(id: string)
      requires Valid()
      modifies this`actionMap, this`log, Channels()
      ensures Valid()
      ensures Next(old(View()), Release(id), View())
    {
      ghost var s, entries := View(), actionMap;
      SoundMeansOwnChannels(entries);
      ghost var order := CloseEach(id);
      ReleasedActions(entries, actionMap, id);
      WalkPerforms(s, Release(id), View(), order);
    }

    method TellEach(id: string, code: int, msg: string) returns (ghost order: seq<string>)
      requires forall k | k in actionMap :: !actionMap[k].channel.closed
      modifies this`actionMap, this`log, Channels()`sent
      ensures Walked(order, old(actionMap).Keys, {}) && ToldSoFar(old(actionMap), actionMap, {}, id, code)
      ensures log == old(log) + EventsInOrder(ActionsOf(old(actionMap)), order, DriverStatus(id, code, msg))
    {
      ghost var base, op, entries := log, DriverStatus(id, code, msg), actionMap;
      order := [];
      var rest := actionMap.Keys;
      while rest != {}
        invariant Walked(order, entries.Keys, rest)
        invariant ToldSoFar(entries, actionMap, rest, id, code)
        invariant log == base + EventsInOrder(ActionsOf(entries), order, op)
      {
        var key :| key in rest;
        LogStep(base, log, ActionsOf(entries), order, key, op);
        WalkedStep(order, entries.Keys, rest, key);
        ToldStep(entries, actionMap, rest, key, id, code);
        rest := rest - {key};
        order := order + [key];
        TellIfNamed(key, id, code, msg);
      }
    }

    /** A status from the driver goes to the channel of the action it names. */
    method HandleDriverStatus(id: string, code: int, msg: string)
      requires Valid()
      modifies this`actionMap, this`log, Channels()`sent
      ensures Valid()
      ensures Next(old(View()), DriverStatus(id, code, msg), View())
    {
      ghost var s, entries := View(), actionMap;
      ghost var order := TellEach(id, code, msg);
      ToldActions(entries, actionMap, id, code, msg);
      WalkPerforms(s, DriverStatus(id, code, msg), View(), order);
    }

    /** What one action is told when the bus name goes away. */
    method TellDisconnected(val: Entry, name: string)
      requires !val.channel.closed
      modifies this`log, val.channel`sent
      ensures !val.channel.closed && log == old(log) + DisconnectEvents(val.action, name)
    {
      var a := val.action;
      if a.sender == name {
        Send(val, Notice(a.id, a.sender, DisconnectCode(a.charaType, true), "Sender Disconnected"));
      }
      if a.receiver == name {
        Send(val, Notice(a.id, a.sender, DisconnectCode(a.charaType, false), "driver Disconnected"));
      }
    }

    /** The caller or the driver of an action is gone; an action may have lost both. */
    method HandleOwnerChanged(name: string, oldOwner: string, newOwner: string)
      requires Valid()
      modifies this`log, Channels()
      ensures Valid()
      ensures Next(old(View()), OwnerChanged(name, oldOwner, newOwner), View())
    {
      ghost var s, op := View(), OwnerChanged(name, oldOwner, newOwner);
      ghost var order: seq<string> := [];
      if oldOwner == "" && newOwner != "" {
        order := EnumerationExists(s.actions.Keys);
        NoEventsOnAppearance(s.actions, order, op);
        assert s.log + [] == s.log;
        WalkPerforms(s, op, View(), order);
        return;
      }
      var rest := actionMap.Keys;
      while rest != {}
        invariant Walked(order, actionMap.Keys, rest)
        invariant forall k | k in actionMap :: !actionMap[k].channel.closed
        invariant log == s.log + EventsInOrder(s.actions, order, op)
      {
        var key :| key in rest;
        LogStep(s.log, log, s.actions, order, key, op);
        WalkedStep(order, actionMap.Keys, rest, key);
        rest := rest - {key};
        order := order + [key];
        TellDisconnected(actionMap[key], name);
      }
      WalkPerforms(s, op, View(), order);
    }
  }

  lemma {:induction false} NoEventsOnAppearance(actions: map<string, Action>, order: seq<string>, op: Op)
    requires op.OwnerChanged? && op.oldOwner == "" && op.newOwner != ""
    requires forall k | k in order :: k in actions
    ensures EventsInOrder(actions, order, op) == []
  {
    if order != [] {
      assert forall k | k in order[..|order| - 1] :: k in order;
      NoEventsOnAppearance(actions, order[..|order| - 1], op);
    }
  }
}
