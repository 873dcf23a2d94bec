/**
  Daemon and client of a session that demands several factors, joined by the queue of
  reports on one side and the stream of status signals on the other. Factors may report
  anything at any time, and the daemon, the client and the factors take their steps in any
  order; both the queue and the stream are first in, first out.
 */
module EndToEnd {
  import opened AuthTypes
  import opened Collections
  import opened Controllers
  import opened FactorOrders
  import opened PamClient
  import MF = MultiFactor

  // ---------- what the daemon offers the client ----------

  /** The factors a session can have, in the order in which it adds them. */
  const OFFERED: seq<AuthType> := [Password, Fingerprint, ActiveDirectory, UKey, Face, Iris, Custom]

  predicate Added(mask: Mask, initFails: set<AuthType>, t: AuthType) {
    MF.HasBit(t, mask) && t !in initFails
  }

  function AddedTo(offered: seq<AuthType>, mask: Mask, initFails: set<AuthType>): (txs: seq<AuthType>)
    ensures forall t :: t in txs <==> t in offered && Added(mask, initFails, t)
  {
    if offered == [] then []
    else
      var last := offered[|offered| - 1];
      AddedTo(offered[..|offered| - 1], mask, initFails) + if Added(mask, initFails, last) then [last] else []
  }

  lemma {:induction false} AddedAreDistinct(offered: seq<AuthType>, mask: Mask, initFails: set<AuthType>)
    requires Distinct(offered)
    ensures Distinct(AddedTo(offered, mask, initFails))
  {
    if offered != [] {
      var init, last := offered[..|offered| - 1], offered[|offered| - 1];
      AddedAreDistinct(init, mask, initFails);
      assert last !in init;
    }
  }

  method AddTx(txs: seq<AuthType>, mask: Mask, initFails: set<AuthType>, t: AuthType) returns (more: seq<AuthType>)
    ensures more == txs + if Added(mask, initFails, t) then [t] else []
  {
    more := txs;
    if MF.HasBit(t, mask) {
      if t !in initFails {
        more := more + [t];
      }
    }
  }

  /** A factor that cannot be initialised is left out of the session, whatever the configuration demands. */
  method AddTxs(mask: Mask, initFails: set<AuthType>) returns (txs: seq<AuthType>)
    ensures txs == AddedTo(OFFERED, mask, initFails)
    ensures txs == AddedTo([Password, Fingerprint, ActiveDirectory, UKey, Face, Iris, Custom], mask, initFails)
    ensures Distinct(txs) && forall t | t in txs :: !t.Unrecognised?
  {
    txs := [];
    for i := 0 to |OFFERED|
      invariant txs == AddedTo(OFFERED[..i], mask, initFails)
    {
      assert OFFERED[..i + 1][..i] == OFFERED[..i];
      txs := AddTx(txs, mask, initFails, OFFERED[i]);
    }
    assert OFFERED[..|OFFERED|] == OFFERED;
    AddedAreDistinct(OFFERED, mask, initFails);
  }

  lemma AddedIsConfigured(factors: seq<AuthType>, initFails: set<AuthType>, t: AuthType)
    requires MF.Configurable(factors)
    ensures t in AddedTo(OFFERED, MaskOf(MF.FlagsOf(factors)), initFails)
            <==> t in OFFERED && t in factors && t !in initFails
  {
    MF.MaskSelectsFactors(factors, t);
  }

  /** A session whose mask is that of a configuration has just its factors, but for those that failed. */
  lemma AddedAreConfigured(factors: seq<AuthType>, initFails: set<AuthType>)
    requires MF.Configurable(factors)
    ensures var txs := AddedTo(OFFERED, MaskOf(MF.FlagsOf(factors)), initFails);
            && MF.Configurable(txs)
            && forall t :: t in txs <==> t in OFFERED && t in factors && t !in initFails
  {
    var txs := AddedTo(OFFERED, MaskOf(MF.FlagsOf(factors)), initFails);
    AddedAreDistinct(OFFERED, MaskOf(MF.FlagsOf(factors)), initFails);
    forall t ensures t in txs <==> t in OFFERED && t in factors && t !in initFails {
      AddedIsConfigured(factors, initFails, t);
    }
  }

  function Offer(t: AuthType): AuthFactor {
    AuthFactor(AuthTypeToFlag(t), AuthTypeToPriority(t))
  }

  method GenAuthFactors(txs: seq<AuthType>) returns (offered: seq<AuthFactor>)
    ensures |offered| == |txs| && forall i | 0 <= i < |txs| :: offered[i] == Offer(txs[i])
  {
    offered := [];
    for i := 0 to |txs|
      invariant |offered| == i && forall j | 0 <= j < i :: offered[j] == Offer(txs[j])
    {
      offered := offered + [AuthFactor(AuthTypeToFlag(txs[i]), AuthTypeToPriority(txs[i]))];
    }
  }

  ghost predicate IsWalk(txs: seq<AuthType>, walk: seq<Flag>, offered: seq<AuthFactor>, order: seq<int>) {
    && |offered| == |txs| && (forall i | 0 <= i < |txs| :: offered[i] == Offer(txs[i]))
    && ByPriority(offered, order) && walk == Walk(offered, order)
  }

  /** The walk of a client that was offered the factors a session has. */
  ghost predicate WalkOf(txs: seq<AuthType>, walk: seq<Flag>) {
    exists offered: seq<AuthFactor>, order: seq<int> :: IsWalk(txs, walk, offered, order)
  }

  /** No session offers a factor twice, so the client's walk holds each of them once, by priority. */
  lemma WalkIsSound(txs: seq<AuthType>, walk: seq<Flag>)
    requires MF.Configurable(txs) && WalkOf(txs, walk)
    ensures Distinct(walk) && |walk| == |txs|
    ensures forall t | t in txs :: AuthTypeToFlag(t) in walk
    ensures forall f | f in walk :: f != FLAG_ALL
    ensures forall i, j | 0 <= i <= j < |walk| ::
              AuthTypeToPriority(AuthFlagToType(walk[i])) >= AuthTypeToPriority(AuthFlagToType(walk[j]))
  {
    var offered: seq<AuthFactor>, order: seq<int> :| IsWalk(txs, walk, offered, order);
    OffersDiffer(txs, offered);
    WalkVisitsEachFactor(offered, order);
    forall t | t in txs ensures AuthTypeToFlag(t) in walk {
      var i :| 0 <= i < |txs| && txs[i] == t;
      assert offered[i] in offered;
    }
    forall i | 0 <= i < |walk|
      ensures walk[i] != FLAG_ALL && AuthTypeToPriority(AuthFlagToType(walk[i])) == offered[order[i]].priority
    {
      assert txs[order[i]] in txs;
      FlagDeterminesType(txs[order[i]]);
    }
  }

  ghost predicate Descending(types: seq<AuthType>) {
    forall i, j | 0 <= i < j < |types| :: AuthTypeToPriority(types[i]) > AuthTypeToPriority(types[j])
  }

  lemma DescendingInit(types: seq<AuthType>)
    requires Descending(types) && types != []
    ensures Descending(types[..|types| - 1])
    ensures forall t :: t in types[..|types| - 1] <==> t in types && t != types[|types| - 1]
    ensures forall t | t in types && t != types[|types| - 1] ::
              AuthTypeToPriority(t) > AuthTypeToPriority(types[|types| - 1])
  {
    assert types == types[..|types| - 1] + [types[|types| - 1]];
  }

  lemma FirstIsMember(types: seq<AuthType>)
    requires types != []
    ensures types[0] in types
  {
  }

  /** There is but one sequence of the same factors in strict order of priority. */
  lemma {:induction false} OneDescending(a: seq<AuthType>, b: seq<AuthType>)
    requires Descending(a) && Descending(b) && forall t :: t in a <==> t in b
    ensures a == b
  {
    if a != [] && b != [] {
      var x, y, a', b' := a[|a| - 1], b[|b| - 1], a[..|a| - 1], b[..|b| - 1];
      DescendingInit(a);
      DescendingInit(b);
      assert x in a && y in b;
      assert x == y;
      forall t ensures t in a' <==> t in b' {
        assert t in a' <==> t in a && t != x;
      }
      OneDescending(a', b');
      assert a == a' + [x] && b == b' + [y];
    } else if a != [] {
      FirstIsMember(a);
    } else if b != [] {
      FirstIsMember(b);
    }
  }

  /** A sequence in strict order of priority stays so when factors are left out. */
  lemma {:induction false} AddedDescending(offered: seq<AuthType>, mask: Mask, initFails: set<AuthType>)
    requires Descending(offered)
    ensures Descending(AddedTo(offered, mask, initFails))
  {
    if offered != [] {
      var init, last := offered[..|offered| - 1], offered[|offered| - 1];
      DescendingInit(offered);
      AddedDescending(init, mask, initFails);
      var before, txs := AddedTo(init, mask, initFails), AddedTo(offered, mask, initFails);
      forall i, j | 0 <= i < j < |txs| ensures AuthTypeToPriority(txs[i]) > AuthTypeToPriority(txs[j]) {
        assert before[i] in init;
      }
    }
  }

  /** The factors in the order in which they are run. */
  function InOrder(txs: seq<AuthType>, order: seq<int>): (types: seq<AuthType>)
    requires IsPermutation(order, |txs|)
    ensures |types| == |txs| && forall i | 0 <= i < |txs| :: types[i] == txs[order[i]]
  {
    seq(|txs|, i requires 0 <= i < |txs| => txs[order[i]])
  }

  lemma InOrderCovers(txs: seq<AuthType>, order: seq<int>)
    requires IsPermutation(order, |txs|) && Distinct(txs)
    ensures forall t :: t in InOrder(txs, order) <==> t in txs
    ensures Distinct(InOrder(txs, order))
  {
    var types := InOrder(txs, order);
    forall t | t in txs ensures t in types {
      var i :| 0 <= i < |txs| && txs[i] == t;
      PermutationCovers(order, |txs|, i);
      var p :| 0 <= p < |order| && order[p] == i;
      assert types[p] == t;
    }
  }

  /** The types of the factors on the walk. */
  lemma WalkedTypes(txs: seq<AuthType>, walk: seq<Flag>) returns (types: seq<AuthType>)
    requires Distinct(txs) && WalkOf(txs, walk)
    ensures |types| == |walk| && forall i | 0 <= i < |walk| :: walk[i] == AuthTypeToFlag(types[i])
    ensures Distinct(types) && forall t :: t in types <==> t in txs
    ensures forall i, j | 0 <= i < j < |types| :: AuthTypeToPriority(types[i]) >= AuthTypeToPriority(types[j])
  {
    var offered: seq<AuthFactor>, order: seq<int> :| IsWalk(txs, walk, offered, order);
    types := InOrder(txs, order);
    InOrderCovers(txs, order);
    WalkIsInOrder(txs, offered, order);
  }

  lemma WalkIsInOrder(txs: seq<AuthType>, offered: seq<AuthFactor>, order: seq<int>)
    requires |offered| == |txs| && (forall i | 0 <= i < |txs| :: offered[i] == Offer(txs[i]))
    requires ByPriority(offered, order)
    ensures var types, walk := InOrder(txs, order), Walk(offered, order);
            && |walk| == |types|
            && (forall i | 0 <= i < |walk| :: walk[i] == AuthTypeToFlag(types[i]))
            && forall i, j | 0 <= i < j < |types| :: AuthTypeToPriority(types[i]) >= AuthTypeToPriority(types[j])
  {
    var types := InOrder(txs, order);
    assert forall i | 0 <= i < |txs| :: offered[order[i]] == Offer(types[i]);
  }

  lemma PrioritiesDiffer(t: AuthType, u: AuthType)
    requires !t.Unrecognised? && !u.Unrecognised? && t != u
    ensures AuthTypeToPriority(t) != AuthTypeToPriority(u)
  {
  }

  lemma StrictlyDescends(txs: seq<AuthType>, types: seq<AuthType>)
    requires Distinct(types) && (forall t | t in txs :: !t.Unrecognised?) && forall t | t in types :: t in txs
    requires forall i, j | 0 <= i < j < |types| :: AuthTypeToPriority(types[i]) >= AuthTypeToPriority(types[j])
    ensures Descending(types)
  {
    forall i, j | 0 <= i < j < |types| ensures AuthTypeToPriority(types[i]) > AuthTypeToPriority(types[j]) {
      assert types[i] in txs && types[j] in txs;
      PrioritiesDiffer(types[i], types[j]);
    }
  }

  /**
    The client of a session starts the factors that the mask demands, and that could be
    initialised, in this order and no others.
   */
  lemma WalkInOrder(mask: Mask, initFails: set<AuthType>, walk: seq<Flag>)
    requires WalkOf(AddedTo(OFFERED, mask, initFails), walk)
    ensures walk == MF.FlagsOf(
              AddedTo([Password, ActiveDirectory, UKey, Fingerprint, Face, Iris, Custom], mask, initFails))
  {
    var inOrder := [Password, ActiveDirectory, UKey, Fingerprint, Face, Iris, Custom];
    var txs := AddedTo(OFFERED, mask, initFails);
    AddedAreDistinct(OFFERED, mask, initFails);
    var types := WalkedTypes(txs, walk);
    AddedDescending(inOrder, mask, initFails);
    StrictlyDescends(txs, types);
    OneDescending(types, AddedTo(inOrder, mask, initFails));
    MF.FlagsAt(types);
    assert walk == MF.FlagsOf(types);
  }

  lemma OffersDiffer(txs: seq<AuthType>, offered: seq<AuthFactor>)
    requires MF.Configurable(txs) && |offered| == |txs| && forall i | 0 <= i < |txs| :: offered[i] == Offer(txs[i])
    ensures forall i, j | 0 <= i < j < |offered| :: offered[i].authType != offered[j].authType
  {
    forall i, j | 0 <= i < j < |offered| ensures offered[i].authType != offered[j].authType {
      assert txs[i] in txs && txs[j] in txs;
      if offered[i].authType == offered[j].authType {
        MF.FlagInjective(txs[i], txs[j]);
      }
    }
  }

  // ---------- the system ----------

  /** A signal, with the number of reports the daemon had handled when it sent it. */
  datatype Message = Message(signal: Signal, seen: nat)

  datatype System = System(
    queue: seq<Report>,
    handled: seq<Report>,
    sent: seq<Message>,
    delivered: nat,
    client: State)

  datatype Action =
    | FactorReports(report: Report)
    | DaemonHandles
    | SessionAnnounces(flag: Flag, status: Status)
    | ClientHandles(env: Env)
    | ClientLosesBus

  function Messages(effects: seq<Effect>, seen: nat): seq<Message> {
    if effects == [] then []
    else
      var last := effects[|effects| - 1];
      Messages(effects[..|effects| - 1], seen) +
      if last.Emit? then [Message(Signal(last.flag, StatusCode(last.status)), seen)] else []
  }

  /**
    Prompts and the end of a session are announced outside the controller; an aggregate
    success is announced by the controller alone.
   */
  ghost function Step(factors: seq<AuthType>, walk: seq<Flag>, s: System, a: Action): System {
    match a
    case FactorReports(r) => s.(queue := s.queue + [r])
    case DaemonHandles =>
      if s.queue == [] then s
      else
        s.(queue := s.queue[1..],
           handled := s.handled + [s.queue[0]],
           sent := s.sent + Messages(Multi(factors).Respond(s.handled, s.queue[0]), |s.handled| + 1))
    case SessionAnnounces(flag, status) =>
      if flag == FLAG_ALL && status.Success? then s
      else s.(sent := s.sent + [Message(Signal(flag, StatusCode(status)), |s.handled|)])
    case ClientHandles(env) =>
      if s.delivered < |s.sent| && s.client.result.Undecided? then
        s.(delivered := s.delivered + 1, client := AfterSignal(walk, s.client, s.sent[s.delivered].signal, env))
      else s
    case ClientLosesBus =>
      if s.client.result.Undecided? then s.(client := AfterArrival(walk, s.client, BusError)) else s
  }

  ghost function Reached(factors: seq<AuthType>, walk: seq<Flag>, start: State, actions: seq<Action>): System {
    if actions == [] then System([], [], [], 0, start)
    else Step(factors, walk, Reached(factors, walk, start, actions[..|actions| - 1]), actions[|actions| - 1])
  }

  // ---------- safety ----------

  predicate SomeFailure(h: seq<Report>) {
    exists r | r in h :: r.status.Failure?
  }

  /** A signal that makes the client give up. */
  predicate Fatal(m: Message) {
    m.signal.code == CODE_FAILURE && m.signal.flag != FLAG_ALL
  }

  predicate SomeFatal(sent: seq<Message>) {
    exists m | m in sent :: Fatal(m)
  }

  predicate AggregateSuccess(m: Message) {
    m.signal == Signal(FLAG_ALL, CODE_SUCCESS)
  }

  ghost predicate AllPassed(factors: seq<AuthType>, h: seq<Report>) {
    forall t | t in factors :: Passed(h, t)
  }

  /** The aggregate success was sent when every factor had passed, and after every failure was told. */
  ghost predicate Justified(factors: seq<AuthType>, h: seq<Report>, before: seq<Message>, m: Message) {
    && m.seen <= |h|
    && (AggregateSuccess(m) ==>
          AllPassed(factors, h[..m.seen]) && (SomeFailure(h[..m.seen]) ==> SomeFatal(before)))
  }

  ghost predicate SentIsJustified(factors: seq<AuthType>, h: seq<Report>, sent: seq<Message>) {
    && (SomeFailure(h) ==> SomeFatal(sent))
    && forall p | 0 <= p < |sent| :: Justified(factors, h, sent[..p], sent[p])
  }

  ghost predicate ClientIsSound(sent: seq<Message>, delivered: nat, client: State) {
    && delivered <= |sent|
    && (client.result.Undecided? || client.result.PamSuccess? ==> !SomeFatal(sent[..delivered]))
    && (client.result.PamSuccess? ==> delivered > 0 && AggregateSuccess(sent[delivered - 1]))
  }

  ghost predicate Invariant(factors: seq<AuthType>, s: System) {
    SentIsJustified(factors, s.handled, s.sent) && ClientIsSound(s.sent, s.delivered, s.client)
  }

  lemma MessagesOfResponse(r: Report, v: Status, seen: nat)
    ensures Messages(Response(r, v), seen) ==
            [Message(Signal(AuthTypeToFlag(r.type0), StatusCode(r.status)), seen)] +
            if r.Counted() && (v.Success? || v.Failure?) then [Message(Signal(FLAG_ALL, StatusCode(v)), seen)] else []
  {
    var flag := AuthTypeToFlag(r.type0);
    MessagesConcat([Emit(flag, r.status)], [], seen);
    OneMessage(Emit(flag, r.status), seen);
    if r.Counted() {
      var own := UpdateLimits(r.status, flag);
      MessagesConcat([Emit(flag, r.status)], own + AnnounceVerdict(v), seen);
      MessagesConcat(own, AnnounceVerdict(v), seen);
      SilentUpdate(r.status, flag, seen);
      if v.Success? || v.Failure? {
        MessagesConcat([Emit(FLAG_ALL, v)], UpdateLimits(v, FLAG_ALL), seen);
        OneMessage(Emit(FLAG_ALL, v), seen);
        SilentUpdate(v, FLAG_ALL, seen);
      }
    }
  }

  lemma OneMessage(e: Effect, seen: nat)
    ensures Messages([e], seen) == if e.Emit? then [Message(Signal(e.flag, StatusCode(e.status)), seen)] else []
  {
    assert [e][..0] == [];
  }

  lemma SilentUpdate(status: Status, flag: Flag, seen: nat)
    ensures Messages(UpdateLimits(status, flag), seen) == []
  {
    var effects := UpdateLimits(status, flag);
    if effects != [] {
      assert effects == [effects[0]];
      OneMessage(effects[0], seen);
    }
  }

  lemma {:induction false} MessagesConcat(a: seq<Effect>, b: seq<Effect>, seen: nat)
    ensures Messages(a + b, seen) == Messages(a, seen) + Messages(b, seen)
  {
    if b != [] {
      MessagesConcat(a, b[..|b| - 1], seen);
      assert (a + b)[..|a + b| - 1] == a + b[..|b| - 1];
    } else {
      assert a + b == a;
    }
  }

  /** One more message, about the reports handled so far. */
  lemma SendOne(factors: seq<AuthType>, h: seq<Report>, sent: seq<Message>, m: Message)
    requires forall p | 0 <= p < |sent| :: Justified(factors, h, sent[..p], sent[p])
    requires Justified(factors, h, sent, m)
    ensures forall p | 0 <= p < |sent + [m]| :: Justified(factors, h, (sent + [m])[..p], (sent + [m])[p])
  {
    forall p | 0 <= p < |sent + [m]| ensures Justified(factors, h, (sent + [m])[..p], (sent + [m])[p]) {
      if p < |sent| {
        assert (sent + [m])[..p] == sent[..p];
      } else {
        assert (sent + [m])[..p] == sent;
      }
    }
  }

  lemma HandleOne(factors: seq<AuthType>, h: seq<Report>, sent: seq<Message>, r: Report)
    requires forall p | 0 <= p < |sent| :: Justified(factors, h, sent[..p], sent[p])
    ensures forall p | 0 <= p < |sent| :: Justified(factors, h + [r], sent[..p], sent[p])
  {
    forall p | 0 <= p < |sent| ensures Justified(factors, h + [r], sent[..p], sent[p]) {
      assert Justified(factors, h, sent[..p], sent[p]);
      assert (h + [r])[..sent[p].seen] == h[..sent[p].seen];
    }
  }

  lemma SomeFatalGrows(sent: seq<Message>, m: Message)
    ensures SomeFatal(sent + [m]) <==> SomeFatal(sent) || Fatal(m)
  {
    assert m in sent + [m];
    if SomeFatal(sent) {
      var k :| k in sent && Fatal(k);
      assert k in sent + [m];
    }
  }

  lemma SomeFailureGrows(h: seq<Report>, r: Report)
    ensures SomeFailure(h + [r]) <==> SomeFailure(h) || r.status.Failure?
  {
    assert r in h + [r];
    if SomeFailure(h) {
      var k :| k in h && k.status.Failure?;
      assert k in h + [r];
    }
  }

  function Told(r: Report, seen: nat): Message {
    Message(Signal(AuthTypeToFlag(r.type0), StatusCode(r.status)), seen)
  }

  lemma ReportTold(factors: seq<AuthType>, h: seq<Report>, sent: seq<Message>, r: Report)
    requires SentIsJustified(factors, h, sent)
    ensures SentIsJustified(factors, h + [r], sent + [Told(r, |h| + 1)])
  {
    FlagDeterminesType(r.type0);
    SomeFailureGrows(h, r);
    SomeFatalGrows(sent, Told(r, |h| + 1));
    HandleOne(factors, h, sent, r);
    SendOne(factors, h + [r], sent, Told(r, |h| + 1));
  }

  lemma VerdictTold(factors: seq<AuthType>, h: seq<Report>, sent: seq<Message>)
    requires SentIsJustified(factors, h, sent)
    requires Multi(factors).Verdict(h).Success? || Multi(factors).Verdict(h).Failure?
    ensures SentIsJustified(factors, h, sent + [Message(Signal(FLAG_ALL, StatusCode(Multi(factors).Verdict(h))), |h|)])
  {
    var verdict := Message(Signal(FLAG_ALL, StatusCode(Multi(factors).Verdict(h))), |h|);
    assert h[..verdict.seen] == h;
    SendOne(factors, h, sent, verdict);
    SomeFatalGrows(sent, verdict);
  }

  /** The daemon tells the report before the verdict, and an aggregate success is the verdict. */
  lemma DaemonStepJustified(factors: seq<AuthType>, h: seq<Report>, sent: seq<Message>, r: Report)
    requires SentIsJustified(factors, h, sent)
    ensures SentIsJustified(factors, h + [r], sent + Messages(Multi(factors).Respond(h, r), |h| + 1))
  {
    var v, told := Multi(factors).Verdict(h + [r]), [Told(r, |h| + 1)];
    ReportTold(factors, h, sent, r);
    MessagesOfResponse(r, v, |h| + 1);
    if r.Counted() && (v.Success? || v.Failure?) {
      VerdictTold(factors, h + [r], sent + told);
      var verdict := [Message(Signal(FLAG_ALL, StatusCode(v)), |h| + 1)];
      assert sent + told + verdict == sent + (told + verdict);
    } else {
      assert sent + told == sent + (told + []);
    }
  }

  lemma AnnouncementJustified(factors: seq<AuthType>, h: seq<Report>, sent: seq<Message>, flag: Flag, status: Status)
    requires SentIsJustified(factors, h, sent) && !(flag == FLAG_ALL && status.Success?)
    ensures SentIsJustified(factors, h, sent + [Message(Signal(flag, StatusCode(status)), |h|)])
  {
    var m := Message(Signal(flag, StatusCode(status)), |h|);
    SendOne(factors, h, sent, m);
    SomeFatalGrows(sent, m);
  }

  lemma DeliverySound(walk: seq<Flag>, sent: seq<Message>, delivered: nat, client: State, env: Env)
    requires ClientIsSound(sent, delivered, client) && delivered < |sent| && client.result.Undecided?
    ensures ClientIsSound(sent, delivered + 1, AfterSignal(walk, client, sent[delivered].signal, env))
  {
    assert sent[..delivered + 1] == sent[..delivered] + [sent[delivered]];
    SomeFatalGrows(sent[..delivered], sent[delivered]);
  }

  lemma SendingKeepsClientSound(sent: seq<Message>, more: seq<Message>, delivered: nat, client: State)
    requires ClientIsSound(sent, delivered, client)
    ensures ClientIsSound(sent + more, delivered, client)
  {
    assert (sent + more)[..delivered] == sent[..delivered];
  }

  lemma StepKeepsInvariant(factors: seq<AuthType>, walk: seq<Flag>, s: System, a: Action)
    requires Invariant(factors, s)
    ensures Invariant(factors, Step(factors, walk, s, a))
  {
    match a {
      case FactorReports(_) =>
      case DaemonHandles =>
        if s.queue != [] {
          DaemonStepJustified(factors, s.handled, s.sent, s.queue[0]);
          SendingKeepsClientSound(
            s.sent, Messages(Multi(factors).Respond(s.handled, s.queue[0]), |s.handled| + 1), s.delivered, s.client);
        }
      case SessionAnnounces(flag, status) =>
        if !(flag == FLAG_ALL && status.Success?) {
          AnnouncementJustified(factors, s.handled, s.sent, flag, status);
          SendingKeepsClientSound(s.sent, [Message(Signal(flag, StatusCode(status)), |s.handled|)], s.delivered,
              s.client);
        }
      case ClientHandles(env) =>
        if s.delivered < |s.sent| && s.client.result.Undecided? {
          DeliverySound(walk, s.sent, s.delivered, s.client, env);
        }
      case ClientLosesBus =>
    }
  }

  lemma {:induction false} InvariantHolds(
      factors: seq<AuthType>, walk: seq<Flag>, initial: Flag, entry: Entry, actions: seq<Action>)
    ensures Invariant(factors, Reached(factors, walk, Begin(walk, initial, entry), actions))
  {
    if actions != [] {
      InvariantHolds(factors, walk, initial, entry, actions[..|actions| - 1]);
      StepKeepsInvariant(
        factors, walk, Reached(factors, walk, Begin(walk, initial, entry), actions[..|actions| - 1]),
        actions[|actions| - 1]);
    }
  }

  /**
    In every interleaving, a client that reports success to PAM does so on an aggregate
    success which the daemon sent after n reports, when the latest counted report of every
    configured factor was a success; and none of those n reports was a failure. Before that the
    password was not locked, and neither the subscription nor the first start had failed.
   */
  lemma SuccessMeansEveryFactorPassed(
      factors: seq<AuthType>, walk: seq<Flag>, initial: Flag, entry: Entry, actions: seq<Action>)
    returns (n: nat)
    requires Reached(factors, walk, Begin(walk, initial, entry), actions).client.result.PamSuccess?
    ensures var s := Reached(factors, walk, Begin(walk, initial, entry), actions);
            && 0 < s.delivered <= |s.sent| && s.sent[s.delivered - 1] == Message(Signal(FLAG_ALL, CODE_SUCCESS), n)
            && n <= |s.handled|
            && (forall t | t in factors :: Passed(s.handled[..n], t))
            && (forall r | r in s.handled[..n] :: !r.status.Failure?)
    ensures entry == Entry(false, false, false)
  {
    var arrivals := ClientRunsOnDelivered(factors, walk, Begin(walk, initial, entry), actions);
    AttemptSucceedsOnly(walk, initial, entry, arrivals);
    InvariantHolds(factors, walk, initial, entry, actions);
    var s := Reached(factors, walk, Begin(walk, initial, entry), actions);
    var p := s.delivered - 1;
    n := s.sent[p].seen;
    assert Justified(factors, s.handled, s.sent[..p], s.sent[p]);
    assert s.sent[..s.delivered] == s.sent[..p] + [s.sent[p]];
    SomeFatalGrows(s.sent[..p], s.sent[p]);
    assert !SomeFailure(s.handled[..n]);
  }

  // ---------- sessions short of a factor ----------

  /** Only the factors a session has report to its controller. */
  predicate ReportsFrom(txs: seq<AuthType>, actions: seq<Action>) {
    forall a | a in actions :: a.FactorReports? ==> a.report.type0 in txs
  }

  lemma {:induction false} HandledAreFrom(
      factors: seq<AuthType>, walk: seq<Flag>, start: State, txs: seq<AuthType>, actions: seq<Action>)
    requires ReportsFrom(txs, actions)
    ensures var s := Reached(factors, walk, start, actions);
            (forall r | r in s.queue :: r.type0 in txs) && (forall r | r in s.handled :: r.type0 in txs)
  {
    if actions != [] {
      var init, last := actions[..|actions| - 1], actions[|actions| - 1];
      assert actions == init + [last];
      HandledAreFrom(factors, walk, start, txs, init);
    }
  }

  lemma {:induction false} PassedHasReported(h: seq<Report>, t: AuthType)
    requires Passed(h, t)
    ensures exists r | r in h :: r.type0 == t
  {
    var last := h[|h| - 1];
    if last.type0 == t && last.Counted() {
      assert last in h;
    } else {
      PassedHasReported(h[..|h| - 1], t);
      var r :| r in h[..|h| - 1] && r.type0 == t;
      assert r in h;
    }
  }

  /**
    A client succeeds only if the session has every configured factor: one that lacks a factor,
    because it could not be initialised, never does.
   */
  lemma SuccessNeedsEveryFactor(
      factors: seq<AuthType>, txs: seq<AuthType>, walk: seq<Flag>, initial: Flag, entry: Entry,
      actions: seq<Action>)
    requires ReportsFrom(txs, actions)
    requires Reached(factors, walk, Begin(walk, initial, entry), actions).client.result.PamSuccess?
    ensures forall t | t in factors :: t in txs
  {
    var s := Reached(factors, walk, Begin(walk, initial, entry), actions);
    var n := SuccessMeansEveryFactorPassed(factors, walk, initial, entry, actions);
    HandledAreFrom(factors, walk, Begin(walk, initial, entry), txs, actions);
    forall t | t in factors ensures t in txs {
      PassedHasReported(s.handled[..n], t);
      var r :| r in s.handled[..n] && r.type0 == t;
      assert r in s.handled;
    }
  }

  // ---------- the client's side in the same system ----------

  function SignalsSent(sent: seq<Message>): (signals: seq<Signal>)
    ensures |signals| == |sent| && forall i | 0 <= i < |sent| :: signals[i] == sent[i].signal
  {
    if sent == [] then [] else SignalsSent(sent[..|sent| - 1]) + [sent[|sent| - 1].signal]
  }

  lemma ClientTakesStep(walk: seq<Flag>, start: State, arrivals: seq<Arrival>, a: Arrival)
    requires Run(walk, start, arrivals).result.Undecided?
    ensures Run(walk, start, arrivals + [a]) == AfterArrival(walk, Run(walk, start, arrivals), a)
    ensures SignalsOf(arrivals + [a]) == SignalsOf(arrivals) + if a.Arrives? then [a.signal] else []
  {
    RunStep(walk, start, arrivals, a);
    assert (arrivals + [a])[..|arrivals|] == arrivals;
  }

  lemma SentPrefix(sent: seq<Message>, more: seq<Message>, n: nat)
    requires n <= |sent|
    ensures SignalsSent((sent + more)[..n]) == SignalsSent(sent[..n])
  {
    assert (sent + more)[..n] == sent[..n];
  }

  predicate OfClient(a: Action) {
    a.ClientHandles? || a.ClientLosesBus?
  }

  lemma OthersLeaveClient(factors: seq<AuthType>, walk: seq<Flag>, s: System, a: Action)
    requires !OfClient(a) && s.delivered <= |s.sent|
    ensures var t := Step(factors, walk, s, a);
            && t.client == s.client && t.delivered == s.delivered <= |t.sent|
            && SignalsSent(t.sent[..t.delivered]) == SignalsSent(s.sent[..s.delivered])
  {
    match a {
      case DaemonHandles =>
        if s.queue != [] {
          SentPrefix(s.sent, Messages(Multi(factors).Respond(s.handled, s.queue[0]), |s.handled| + 1), s.delivered);
        }
      case SessionAnnounces(flag, status) =>
        SentPrefix(s.sent, [Message(Signal(flag, StatusCode(status)), |s.handled|)], s.delivered);
      case _ =>
    }
  }

  /** A step of the client is one more arrival, or none. */
  lemma ClientStep(factors: seq<AuthType>, walk: seq<Flag>, start: State, s: System, a: Action, arrivals: seq<Arrival>)
    returns (more: seq<Arrival>)
    requires OfClient(a) && s.client == Run(walk, start, arrivals)
    requires s.delivered <= |s.sent| && SignalsOf(arrivals) == SignalsSent(s.sent[..s.delivered])
    ensures var t := Step(factors, walk, s, a);
            && t.client == Run(walk, start, arrivals + more)
            && t.delivered <= |t.sent| && SignalsOf(arrivals + more) == SignalsSent(t.sent[..t.delivered])
    ensures CalmAction(a) ==> forall x | x in more :: Calm(x)
  {
    more := [];
    if s.client.result.Undecided? {
      if a.ClientHandles? {
        if s.delivered < |s.sent| {
          more := [Arrives(s.sent[s.delivered].signal, a.env)];
          ClientTakesStep(walk, start, arrivals, more[0]);
          assert s.sent[..s.delivered + 1][..s.delivered] == s.sent[..s.delivered];
        }
      } else {
        more := [BusError];
        ClientTakesStep(walk, start, arrivals, BusError);
      }
    }
    if more == [] {
      assert arrivals + more == arrivals;
    }
  }

  /** The signals the client has handled so far are the delivered ones, in the order sent. */
  lemma {:induction false} ClientRunsOnDelivered(
      factors: seq<AuthType>, walk: seq<Flag>, start: State, actions: seq<Action>)
    returns (arrivals: seq<Arrival>)
    ensures var s := Reached(factors, walk, start, actions);
            && s.client == Run(walk, start, arrivals)
            && s.delivered <= |s.sent| && SignalsOf(arrivals) == SignalsSent(s.sent[..s.delivered])
    ensures (forall a | a in actions :: CalmAction(a)) ==> forall a | a in arrivals :: Calm(a)
  {
    arrivals := [];
    if actions != [] {
      var init, last := actions[..|actions| - 1], actions[|actions| - 1];
      assert actions == init + [last];
      arrivals := ClientRunsOnDelivered(factors, walk, start, init);
      var s := Reached(factors, walk, start, init);
      if OfClient(last) {
        var more := ClientStep(factors, walk, start, s, last, arrivals);
        arrivals := arrivals + more;
      } else {
        OthersLeaveClient(factors, walk, s, last);
      }
    }
  }

  /**
    In every interleaving the client has started a prefix of the factors of the session in
    order of priority, each once and no more than there are, whatever the configuration.
   */
  lemma ClientStartsByPriority(
      factors: seq<AuthType>, txs: seq<AuthType>, walk: seq<Flag>, initial: Flag, entry: Entry,
      actions: seq<Action>)
    returns (n: nat)
    requires MF.Configurable(txs) && WalkOf(txs, walk)
    ensures var starts := StartsOf(Reached(factors, walk, Begin(walk, initial, entry), actions).client.calls);
            && n <= |txs| && |walk| == |txs| && starts == walk[..n] && Distinct(starts)
            && forall i, j | 0 <= i <= j < n ::
                 AuthTypeToPriority(AuthFlagToType(starts[i])) >= AuthTypeToPriority(AuthFlagToType(starts[j]))
  {
    WalkIsSound(txs, walk);
    var arrivals := ClientRunsOnDelivered(factors, walk, Begin(walk, initial, entry), actions);
    n := StartsArePrefix(walk, initial, entry, arrivals);
  }

  // ---------- when the client hears the verdict ----------

  /** Nothing fails around the client, and the session announces only prompts and its end. */
  predicate CalmAction(a: Action) {
    match a
    case ClientHandles(env) => env == Env(false, false, false)
    case ClientLosesBus => false
    case SessionAnnounces(flag, _) => flag == FLAG_ALL
    case _ => true
  }

  lemma FatalToldIsFailure(r: Report, seen: nat)
    ensures Fatal(Told(r, seen)) ==> r.status.Failure?
  {
  }

  lemma ResponseFatal(factors: seq<AuthType>, h: seq<Report>, sent: seq<Message>, r: Report)
    requires SomeFatal(sent) ==> SomeFailure(h)
    ensures SomeFatal(sent + Messages(Multi(factors).Respond(h, r), |h| + 1)) ==> SomeFailure(h + [r])
  {
    var v, seen := Multi(factors).Verdict(h + [r]), |h| + 1;
    var own, verdict := Told(r, seen), Message(Signal(FLAG_ALL, StatusCode(v)), seen);
    SomeFailureGrows(h, r);
    FatalToldIsFailure(r, seen);
    MessagesOfResponse(r, v, seen);
    SomeFatalGrows(sent, own);
    if r.Counted() && (v.Success? || v.Failure?) {
      SomeFatalGrows(sent + [own], verdict);
      assert sent + ([own] + [verdict]) == sent + [own] + [verdict];
    } else {
      assert sent + ([own] + []) == sent + [own];
    }
  }

  lemma CalmStepFatal(factors: seq<AuthType>, walk: seq<Flag>, s: System, a: Action)
    requires CalmAction(a) && (SomeFatal(s.sent) ==> SomeFailure(s.handled))
    ensures var t := Step(factors, walk, s, a); SomeFatal(t.sent) ==> SomeFailure(t.handled)
  {
    match a {
      case DaemonHandles =>
        if s.queue != [] {
          ResponseFatal(factors, s.handled, s.sent, s.queue[0]);
        }
      case SessionAnnounces(flag, status) =>
        SomeFatalGrows(s.sent, Message(Signal(flag, StatusCode(status)), |s.handled|));
      case _ =>
    }
  }

  /** In a calm run a fatal signal tells of a failure that was handled. */
  lemma {:induction false} CalmFatalIsFailure(
      factors: seq<AuthType>, walk: seq<Flag>, start: State, actions: seq<Action>)
    requires forall a | a in actions :: CalmAction(a)
    ensures var s := Reached(factors, walk, start, actions); SomeFatal(s.sent) ==> SomeFailure(s.handled)
  {
    if actions != [] {
      var init, last := actions[..|actions| - 1], actions[|actions| - 1];
      assert last in actions && forall a | a in init :: a in actions;
      CalmFatalIsFailure(factors, walk, start, init);
      CalmStepFatal(factors, walk, Reached(factors, walk, start, init), last);
    }
  }

  /**
    While nothing fails around it, a client that has handled all that was sent still waits
    exactly when no factor has failed and no aggregate success was sent. An aggregate failure
    does not decide it: after one that comes of errors, not of failures, it waits on.
   */
  lemma ClientWaitsExactly(factors: seq<AuthType>, txs: seq<AuthType>, walk: seq<Flag>, initial: Flag,
        actions: seq<Action>)
    requires MF.Configurable(txs) && txs != [] && WalkOf(txs, walk) && forall a | a in actions :: CalmAction(a)
    requires var s := Reached(factors, walk, Begin(walk, initial, SMOOTH), actions); s.delivered == |s.sent|
    ensures var s := Reached(factors, walk, Begin(walk, initial, SMOOTH), actions);
            s.client.result.Undecided?
            <==> !SomeFailure(s.handled) && forall m | m in s.sent :: !AggregateSuccess(m)
  {
    var s := Reached(factors, walk, Begin(walk, initial, SMOOTH), actions);
    WalkIsSound(txs, walk);
    var arrivals := ClientRunsOnDelivered(factors, walk, Begin(walk, initial, SMOOTH), actions);
    PamClient.ClientWaitsExactly(walk, initial, arrivals);
    SignalsOfArrivals(arrivals);
    CalmFatalIsFailure(factors, walk, Begin(walk, initial, SMOOTH), actions);
    InvariantHolds(factors, walk, initial, SMOOTH, actions);
    assert s.sent[..s.delivered] == s.sent;
    DecidingMessages(s.sent);
  }

  // ---------- when the client succeeds ----------

  /** The messages stand in the order in which they were sent, and a fatal one tells of a failure. */
  ghost predicate Chronicle(h: seq<Report>, sent: seq<Message>) {
    && (forall p | 0 <= p < |sent| :: sent[p].seen <= |h|)
    && (forall p, q | 0 <= p <= q < |sent| :: sent[p].seen <= sent[q].seen)
    && (forall p | 0 <= p < |sent| && Fatal(sent[p]) :: SomeFailure(h[..sent[p].seen]))
  }

  lemma ChronicleGrows(h: seq<Report>, g: seq<Report>, sent: seq<Message>, more: seq<Message>)
    requires Chronicle(h, sent) && h <= g
    requires forall m | m in more :: m.seen == |g| && (Fatal(m) ==> SomeFailure(g))
    ensures Chronicle(g, sent + more)
  {
    var all := sent + more;
    forall p | 0 <= p < |all| && Fatal(all[p]) ensures all[p].seen <= |g| && SomeFailure(g[..all[p].seen]) {
      if p < |sent| {
        assert h[..sent[p].seen] == g[..sent[p].seen];
      } else {
        assert all[p] in more && g[..|g|] == g;
      }
    }
    assert forall p | |sent| <= p < |all| :: all[p] == more[p - |sent|] && all[p] in more;
  }

  /** The daemon tells of the aggregate success as soon as it has handled n reports. */
  predicate Announced(sent: seq<Message>, n: nat) {
    Message(Signal(FLAG_ALL, CODE_SUCCESS), n) in sent
  }

  ghost predicate AllAnnounced(factors: seq<AuthType>, h: seq<Report>, sent: seq<Message>) {
    forall n | 0 < n <= |h| && h[n - 1].Counted() && AllPassed(factors, h[..n]) :: Announced(sent, n)
  }

  lemma AnnouncedGrows(factors: seq<AuthType>, h: seq<Report>, r: Report, sent: seq<Message>)
    requires AllAnnounced(factors, h, sent)
    ensures AllAnnounced(factors, h + [r], sent + Messages(Multi(factors).Respond(h, r), |h| + 1))
  {
    var g, v := h + [r], Multi(factors).Verdict(h + [r]);
    MessagesOfResponse(r, v, |h| + 1);
    forall n | 0 < n <= |g| && g[n - 1].Counted() && AllPassed(factors, g[..n])
      ensures Announced(sent + Messages(Multi(factors).Respond(h, r), |h| + 1), n)
    {
      if n <= |h| {
        assert g[..n] == h[..n] && g[n - 1] == h[n - 1];
        assert Announced(sent, n);
      } else {
        assert g[..n] == g;
      }
    }
  }

  lemma CalmStepChronicle(factors: seq<AuthType>, walk: seq<Flag>, s: System, a: Action)
    requires CalmAction(a) && Chronicle(s.handled, s.sent)
    ensures var t := Step(factors, walk, s, a); Chronicle(t.handled, t.sent)
  {
    match a {
      case DaemonHandles =>
        if s.queue != [] {
          var r, g := s.queue[0], s.handled + [s.queue[0]];
          MessagesOfResponse(r, Multi(factors).Verdict(g), |g|);
          SomeFailureGrows(s.handled, r);
          ChronicleGrows(s.handled, g, s.sent, Messages(Multi(factors).Respond(s.handled, r), |g|));
        }
      case SessionAnnounces(flag, status) =>
        if !(flag == FLAG_ALL && status.Success?) {
          ChronicleGrows(s.handled, s.handled, s.sent, [Message(Signal(flag, StatusCode(status)), |s.handled|)]);
        }
      case _ =>
    }
  }

  lemma {:induction false} ChronicleHolds(
      factors: seq<AuthType>, walk: seq<Flag>, start: State, actions: seq<Action>)
    requires forall a | a in actions :: CalmAction(a)
    ensures var s := Reached(factors, walk, start, actions); Chronicle(s.handled, s.sent)
  {
    if actions != [] {
      var init, last := actions[..|actions| - 1], actions[|actions| - 1];
      assert actions == init + [last];
      ChronicleHolds(factors, walk, start, init);
      CalmStepChronicle(factors, walk, Reached(factors, walk, start, init), last);
    }
  }

  lemma {:induction false} AllAnnouncedHolds(
      factors: seq<AuthType>, walk: seq<Flag>, start: State, actions: seq<Action>)
    ensures var s := Reached(factors, walk, start, actions); AllAnnounced(factors, s.handled, s.sent)
  {
    if actions != [] {
      var init, last := actions[..|actions| - 1], actions[|actions| - 1];
      AllAnnouncedHolds(factors, walk, start, init);
      var s := Reached(factors, walk, start, init);
      if last.DaemonHandles? && s.queue != [] {
        AnnouncedGrows(factors, s.handled, s.queue[0], s.sent);
      }
    }
  }

  /** When all have passed, the last report that counted made it so. */
  lemma {:induction false} LastCounted(factors: seq<AuthType>, h: seq<Report>) returns (n: nat)
    requires factors != [] && AllPassed(factors, h)
    ensures 0 < n <= |h| && h[n - 1].Counted() && AllPassed(factors, h[..n])
  {
    assert Passed(h, factors[0]);
    n := |h|;
    if h[n - 1].Counted() {
      assert h[..n] == h;
    } else {
      forall t | t in factors ensures Passed(h[..n - 1], t) {
        assert Passed(h, t);
      }
      n := LastCounted(factors, h[..|h| - 1]);
      assert h[..|h| - 1][..n] == h[..n];
    }
  }

  lemma FailureStays(h: seq<Report>, a: nat, b: nat)
    requires a <= b <= |h|
    ensures SomeFailure(h[..a]) ==> SomeFailure(h[..b])
  {
    if SomeFailure(h[..a]) {
      var r :| r in h[..a] && r.status.Failure?;
      assert r in h[..b];
    }
  }

  /** A success announced when nothing had failed has no fatal message before it. */
  lemma NothingFatalBefore(h: seq<Report>, sent: seq<Message>, n: nat, p: nat)
    requires Chronicle(h, sent) && n <= |h| && !SomeFailure(h[..n])
    requires p < |sent| && sent[p].seen <= n
    ensures forall q | 0 <= q <= p :: !Fatal(sent[q])
  {
    forall q | 0 <= q <= p ensures !Fatal(sent[q]) {
      FailureStays(h, sent[q].seen, n);
    }
  }

  lemma {:induction false} DecidedAsSuccess(signals: seq<Signal>, p: nat)
    requires p < |signals| && signals[p] == Signal(FLAG_ALL, CODE_SUCCESS)
    requires forall q | 0 <= q <= p :: !(signals[q].flag != FLAG_ALL && signals[q].code == CODE_FAILURE)
    ensures DecidedBy(signals) == Some(Signal(FLAG_ALL, CODE_SUCCESS))
  {
    if p < |signals| - 1 {
      DecidedAsSuccess(signals[..|signals| - 1], p);
    } else if DecidedBy(signals[..p]).Some? {
      assert DecidedBy(signals[..p]).value in signals[..p];
    }
  }

  /** What the client ends with is what the first deciding signal among those handled says. */
  lemma ClientOutcome(factors: seq<AuthType>, txs: seq<AuthType>, walk: seq<Flag>, initial: Flag,
        actions: seq<Action>)
    requires MF.Configurable(txs) && txs != [] && WalkOf(txs, walk) && forall a | a in actions :: CalmAction(a)
    ensures var s := Reached(factors, walk, Begin(walk, initial, SMOOTH), actions);
            s.delivered <= |s.sent| && s.client.result == Outcome(DecidedBy(SignalsSent(s.sent[..s.delivered])))
  {
    WalkIsSound(txs, walk);
    var arrivals := ClientRunsOnDelivered(factors, walk, Begin(walk, initial, SMOOTH), actions);
    PamClient.ClientDecidesExactly(walk, initial, arrivals);
  }

  /** No fatal message is among the first, and there is a success among them or the client has decided. */
  lemma SuccessDelivered(sent: seq<Message>, delivered: nat, p: nat)
    requires delivered <= |sent| && p < |sent| && AggregateSuccess(sent[p])
    requires forall q | 0 <= q <= p :: !Fatal(sent[q])
    requires p < delivered || DecidedBy(SignalsSent(sent[..delivered])).Some?
    ensures Outcome(DecidedBy(SignalsSent(sent[..delivered]))) == PamSuccess
  {
    var signals := SignalsSent(sent[..delivered]);
    if p < delivered {
      DecidedAsSuccess(signals, p);
    } else {
      var m := DecidedBy(signals).value;
      var q :| 0 <= q < |signals| && signals[q] == m;
      assert !Fatal(sent[q]);
    }
  }

  /** At some moment all had passed and none had failed. */
  ghost predicate PassedUnfailed(factors: seq<AuthType>, h: seq<Report>) {
    exists n :: 0 <= n <= |h| && AllPassed(factors, h[..n]) && !SomeFailure(h[..n])
  }

  /**
    While nothing fails around it, a client that has handled all that was sent, or has decided,
    succeeds exactly when at some moment all factors had passed and none had failed before.
   */
  lemma ClientSucceedsExactly(factors: seq<AuthType>, txs: seq<AuthType>, walk: seq<Flag>, initial: Flag,
        actions: seq<Action>)
    requires MF.Configurable(txs) && txs != [] && WalkOf(txs, walk) && forall a | a in actions :: CalmAction(a)
    requires factors != []
    requires var s := Reached(factors, walk, Begin(walk, initial, SMOOTH), actions);
             s.delivered == |s.sent| || !s.client.result.Undecided?
    ensures var s := Reached(factors, walk, Begin(walk, initial, SMOOTH), actions);
            s.client.result.PamSuccess? <==> PassedUnfailed(factors, s.handled)
  {
    var start := Begin(walk, initial, SMOOTH);
    var s := Reached(factors, walk, start, actions);
    if s.client.result.PamSuccess? {
      var n := SuccessMeansEveryFactorPassed(factors, walk, initial, SMOOTH, actions);
      assert !SomeFailure(s.handled[..n]);
    } else if PassedUnfailed(factors, s.handled) {
      var p := SuccessSent(factors, walk, start, actions);
      ClientOutcome(factors, txs, walk, initial, actions);
      SuccessDelivered(s.sent, s.delivered, p);
    }
  }

  /** The aggregate success is sent, with nothing fatal before it. */
  lemma SuccessSent(factors: seq<AuthType>, walk: seq<Flag>, start: State, actions: seq<Action>) returns (p: nat)
    requires factors != [] && forall a | a in actions :: CalmAction(a)
    requires PassedUnfailed(factors, Reached(factors, walk, start, actions).handled)
    ensures var s := Reached(factors, walk, start, actions);
            p < |s.sent| && AggregateSuccess(s.sent[p]) && forall q | 0 <= q <= p :: !Fatal(s.sent[q])
  {
    var s := Reached(factors, walk, start, actions);
    var n :| 0 <= n <= |s.handled| && AllPassed(factors, s.handled[..n]) && !SomeFailure(s.handled[..n]);
    var k := LastCounted(factors, s.handled[..n]);
    assert s.handled[..n][..k] == s.handled[..k] && s.handled[..n][k - 1] == s.handled[k - 1];
    AllAnnouncedHolds(factors, walk, start, actions);
    ChronicleHolds(factors, walk, start, actions);
    assert Announced(s.sent, k);
    p :| p < |s.sent| && s.sent[p] == Message(Signal(FLAG_ALL, CODE_SUCCESS), k);
    NothingFatalBefore(s.handled, s.sent, n, p);
  }

  /** Among the signals handled, success comes of the last one, and of no failure of a factor before it. */
  lemma ClientEndsOnAggregate(factors: seq<AuthType>, txs: seq<AuthType>, walk: seq<Flag>, initial: Flag,
        actions: seq<Action>)
    requires MF.Configurable(txs) && txs != [] && WalkOf(txs, walk) && forall a | a in actions :: CalmAction(a)
    ensures var s := Reached(factors, walk, Begin(walk, initial, SMOOTH), actions);
            && s.delivered <= |s.sent|
            && (s.client.result.PamSuccess?
                <==> 0 < s.delivered && AggregateSuccess(s.sent[s.delivered - 1]) && !SomeFatal(s.sent[..s.delivered]))
  {
    var s := Reached(factors, walk, Begin(walk, initial, SMOOTH), actions);
    InvariantHolds(factors, walk, initial, SMOOTH, actions);
    ClientOutcome(factors, txs, walk, initial, actions);
    if 0 < s.delivered && AggregateSuccess(s.sent[s.delivered - 1]) && !SomeFatal(s.sent[..s.delivered]) {
      forall q | 0 <= q < s.delivered ensures !Fatal(s.sent[q]) {
        assert s.sent[..s.delivered][q] == s.sent[q];
      }
      SuccessDelivered(s.sent, s.delivered, s.delivered - 1);
    }
  }

  lemma DecidingMessages(sent: seq<Message>)
    ensures (forall m | m in SignalsSent(sent) :: !Decides(m))
            <==> !SomeFatal(sent) && forall m | m in sent :: !AggregateSuccess(m)
  {
    forall m | m in sent ensures m.signal in SignalsSent(sent) {
      var i :| 0 <= i < |sent| && sent[i] == m;
      assert SignalsSent(sent)[i] == m.signal;
    }
    if g :| g in SignalsSent(sent) && Decides(g) {
      var i :| 0 <= i < |sent| && SignalsSent(sent)[i] == g;
      assert sent[i] in sent && (Fatal(sent[i]) || AggregateSuccess(sent[i]));
    } else {
      assert forall m | m in sent :: !Decides(m.signal);
    }
  }

  lemma ErrorFailsSession(h: seq<Report>)
    requires h == [Report(Face, Status.Error)]
    ensures Multi([Face]).Verdict(h) == Failure
  {
    assert Latest(h, Face) == Some(Status.Error);
    assert Face in [Face] && !Passed(h, Face);
  }

  lemma ErrorIsAnnounced(r: Report)
    requires r == Report(Face, Status.Error)
    ensures Messages(Multi([Face]).Respond([], r), 1)
            == [Message(Signal(FLAG_FACE, 4), 1), Message(Signal(FLAG_ALL, CODE_FAILURE), 1)]
  {
    assert [] + [r] == [r];
    ErrorFailsSession([r]);
    MessagesOfResponse(r, Failure, 1);
  }

  lemma HarmlessSignal(walk: seq<Flag>, s: State, m: Signal, env: Env)
    requires s.result.Undecided? && env == Env(false, false, false)
    requires m.code == 4 || (m.flag == FLAG_ALL && m.code == CODE_FAILURE)
    ensures AfterSignal(walk, s, m, env) == s
  {
  }

  lemma HarmlessStep(factors: seq<AuthType>, walk: seq<Flag>, s: System)
    requires s.delivered < |s.sent| && s.client.result.Undecided?
    requires var m := s.sent[s.delivered].signal; m.code == 4 || (m.flag == FLAG_ALL && m.code == CODE_FAILURE)
    ensures Step(factors, walk, s, ClientHandles(Env(false, false, false))) == s.(delivered := s.delivered + 1)
  {
    HarmlessSignal(walk, s.client, s.sent[s.delivered].signal, Env(false, false, false));
  }

  /** The camera's driver fails: the daemon announces the failure of the session, and the client waits on. */
  lemma ErrorLeavesClientWaiting(initial: Flag) returns (actions: seq<Action>)
    ensures forall a | a in actions :: CalmAction(a)
    ensures var s := Reached([Face], [FLAG_FACE], Begin([FLAG_FACE], initial, SMOOTH), actions);
            && s.handled == [Report(Face, Status.Error)]
            && s.sent == [Message(Signal(FLAG_FACE, 4), 1), Message(Signal(FLAG_ALL, CODE_FAILURE), 1)]
            && s.delivered == 2 && s.client.result.Undecided?
  {
    var factors, walk := [Face], [FLAG_FACE];
    var start, calm, r := Begin(walk, initial, SMOOTH), ClientHandles(Env(false, false, false)),
        Report(Face, Status.Error);
    assert start == State(FLAG_FACE, Undecided, [Start(FLAG_FACE)]);
    var sent := Messages(Multi(factors).Respond([], r), 1);
    ErrorIsAnnounced(r);
    actions := [];
    ReachedStep(factors, walk, start, actions, FactorReports(r));
    actions := actions + [FactorReports(r)];
    ReachedStep(factors, walk, start, actions, DaemonHandles);
    actions := actions + [DaemonHandles];
    var s := System([], [r], sent, 0, start);
    assert Reached(factors, walk, start, actions) == s;
    HarmlessStep(factors, walk, s);
    ReachedStep(factors, walk, start, actions, calm);
    actions := actions + [calm];
    HarmlessStep(factors, walk, s.(delivered := 1));
    ReachedStep(factors, walk, start, actions, calm);
    actions := actions + [calm];
  }

  lemma ReachedStep(factors: seq<AuthType>, walk: seq<Flag>, start: State, actions: seq<Action>, a: Action)
    ensures Reached(factors, walk, start, actions + [a])
        == Step(factors, walk, Reached(factors, walk, start, actions), a)
  {
    assert (actions + [a])[..|actions|] == actions;
  }
}
