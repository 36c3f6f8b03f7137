/** One DHCP server and any number of clients over a network that loses, duplicates and reorders. */
module DhcpNetworks {
  import opened DhcpMessages
  import S = DhcpServers
  import C = DhcpClients
  import opened Sequences

  /** `sent` holds every message ever sent: any of them may arrive at any time, any number of times, or
      never, at the server and at every client. */
  datatype System = System(cfg: S.Settings, leased: S.Table, clients: seq<C.Client>, sent: set<Message>, now: real)

  datatype Event =
    | Pass(until: real)
    | ToServer(m: Message)
    | ToClient(i: nat, m: Message, nextXid: nat)
    | Timer(i: nat, kind: C.TimerType, nextXid: nat)
    | Associated(i: nat, nextXid: nat)
    | Start(i: nat, start: real)
    | Stop(i: nat, addressCleared: bool)

  /** A transaction id nobody uses and no message carries. */
  ghost predicate FreshXid(sys: System, xid: nat) {
    && (forall m | m in sys.sent :: m.xid != xid)
    && (forall i | 0 <= i < |sys.clients| :: sys.clients[i].xid != xid)
  }

  /** What can happen next.  Time does not pass a pending timer; a client starts on an interface without
      an address. */
  ghost predicate Enabled(sys: System, e: Event) {
    match e
    case Pass(until) =>
      sys.now <= until && forall i | 0 <= i < |sys.clients| :: C.OnTime(sys.clients[i], until)
    case ToServer(m) => m in sys.sent
    case ToClient(i, m, xid) => i < |sys.clients| && m in sys.sent && FreshXid(sys, xid)
    case Timer(i, kind, xid) =>
      i < |sys.clients| && C.Due(sys.clients[i], kind, sys.now) && FreshXid(sys, xid)
    case Associated(i, xid) => i < |sys.clients| && sys.clients[i].operational && FreshXid(sys, xid)
    case Start(i, start) =>
      i < |sys.clients| && !sys.clients[i].operational && sys.clients[i].address == 0 && sys.now <= start
    case Stop(i, _) => i < |sys.clients|
  }

  ghost function Sending(sys: System, i: nat, e: C.Effect): System
    requires i < |sys.clients|
  {
    sys.(clients := sys.clients[i := e.client],
         sent := if e.sent.Some? then sys.sent + {e.sent.value} else sys.sent)
  }

  /** What the client of an event does. */
  ghost function EffectOf(sys: System, e: Event): C.Effect
    requires Enabled(sys, e) && !e.Pass? && !e.ToServer?
  {
    match e
    case ToClient(i, m, xid) => C.HandleMessage(sys.clients[i], m, xid, sys.now)
    case Timer(i, kind, xid) => C.HandleTimerOf(C.Fired(sys.clients[i], kind), kind, xid, sys.now)
    case Associated(i, xid) => C.InitClientOf(sys.clients[i], xid, sys.now)
    case Start(i, start) => C.Quiet(C.Started(sys.clients[i], start))
    case Stop(i, cleared) =>
      var c := C.Stopped(sys.clients[i]);
      C.Quiet(if cleared then c.(address := 0) else c)
  }

  ghost function Apply(sys: System, e: Event): (after: System)
    requires Enabled(sys, e)
    ensures |after.clients| == |sys.clients|
  {
    match e
    case Pass(until) => sys.(now := until)
    case ToServer(m) =>
      var a := S.Process(sys.cfg, sys.leased, m, sys.now);
      sys.(leased := a.leased, sent := if a.reply.Some? then sys.sent + {a.reply.value} else sys.sent)
    case _ => Sending(sys, e.i, EffectOf(sys, e))
  }

  /** An address of the table that is leased to the MAC. */
  ghost predicate LeasedTo(leased: S.Table, ip: Address, mac: Mac) {
    ip in leased && leased[ip].mac == mac
  }

  /** What the messages on their way say is true. */
  ghost predicate TrueMessage(cfg: S.Settings, leased: S.Table, m: Message) {
    && (m.kind == Discover ==> m.requestedIp == 0)
    && (m.kind == Offer || m.kind == Ack ==>
          && LeasedTo(leased, m.yiaddr, m.chaddr)
          && m.leaseTime == cfg.leaseTime as real
          && m.renewalTime == cfg.leaseTime as real * 0.5 && m.rebindingTime == cfg.leaseTime as real * 0.875)
  }

  /** A client's address and recorded lease are its own. */
  ghost predicate OwnLease(leased: S.Table, c: C.Client) {
    && (c.lease.Some? ==> LeasedTo(leased, c.lease.value.ip, c.mac))
    && (c.address != 0 ==> LeasedTo(leased, c.address, c.mac))
  }

  /** Messages of the client's current transaction, acknowledgements aside, carry its MAC. */
  ghost predicate OwnTransaction(sent: set<Message>, c: C.Client) {
    forall m | m in sent && m.xid == c.xid && m.kind != Ack :: m.chaddr == c.mac
  }

  ghost predicate Safe(sys: System) {
    && S.TableOk(sys.cfg, sys.leased)
    && (forall m | m in sys.sent :: TrueMessage(sys.cfg, sys.leased, m))
    && (forall i | 0 <= i < |sys.clients| :: OwnLease(sys.leased, sys.clients[i]))
    && (forall i | 0 <= i < |sys.clients| :: OwnTransaction(sys.sent, sys.clients[i]))
  }

  /** At the start nobody has a lease and nothing has been sent. */
  ghost predicate AtStart(sys: System) {
    && sys.leased == map[] && sys.sent == {}
    && (forall i | 0 <= i < |sys.clients| ::
          && sys.clients[i] == C.Initial(sys.clients[i].mac, sys.clients[i].startTimer)
          && (sys.clients[i].startTimer.Some? ==> sys.now <= sys.clients[i].startTimer.value))
    && (forall i, j | 0 <= i < j < |sys.clients| :: sys.clients[i].mac != sys.clients[j].mac)
  }

  lemma OwnLeaseGrows(before: S.Table, after: S.Table, c: C.Client)
    requires S.Keeps(before, after) && OwnLease(before, c)
    ensures OwnLease(after, c)
  {
  }

  lemma TruthGrows(cfg: S.Settings, before: S.Table, after: S.Table, m: Message)
    requires S.Keeps(before, after) && TrueMessage(cfg, before, m)
    ensures TrueMessage(cfg, after, m)
  {
  }

  lemma ReplyIsTrueMessage(cfg: S.Settings, leased: S.Table, m: Message, reply: Message)
    requires S.TrueReply(cfg, leased, m, reply)
    ensures TrueMessage(cfg, leased, reply) && reply.xid == m.xid && (reply.kind != Ack ==> reply.chaddr == m.chaddr)
    ensures reply.op == BootReply
  {
  }

  /** The server changes no lease, and its answers are true. */
  lemma ServerIsSafe(sys: System, m: Message)
    requires Safe(sys) && m in sys.sent
    ensures Safe(Apply(sys, ToServer(m)))
  {
    assert TrueMessage(sys.cfg, sys.leased, m);
    S.ProcessKeepsTable(sys.cfg, sys.leased, m, sys.now);
    S.RepliesAreTrue(sys.cfg, sys.leased, m, sys.now);
    hide S.TableOk, S.Process, S.Keeps, S.TrueReply, OwnLease, TrueMessage;
    var a := S.Process(sys.cfg, sys.leased, m, sys.now);
    forall i | 0 <= i < |sys.clients|
      ensures OwnLease(a.leased, sys.clients[i])
    {
      OwnLeaseGrows(sys.leased, a.leased, sys.clients[i]);
    }
    forall n | n in sys.sent
      ensures TrueMessage(sys.cfg, a.leased, n)
    {
      TruthGrows(sys.cfg, sys.leased, a.leased, n);
    }
    if a.reply.Some? {
      ReplyIsTrueMessage(sys.cfg, a.leased, m, a.reply.value);
      ServerAnswersOwn(sys, m, a.reply.value);
    }
  }

  lemma ServerAnswersOwn(sys: System, m: Message, reply: Message)
    requires forall i | 0 <= i < |sys.clients| :: OwnTransaction(sys.sent, sys.clients[i])
    requires m in sys.sent && reply.xid == m.xid && (reply.kind != Ack ==> reply.chaddr == m.chaddr)
    requires m.op == BootRequest && m.kind != Ack
    ensures forall i | 0 <= i < |sys.clients| :: OwnTransaction(sys.sent + {reply}, sys.clients[i])
  {
  }

  /** What a client does about its lease, its transaction id, and what it sends. */
  ghost predicate OwnEffect(leased: S.Table, c: C.Client, nextXid: nat, e: C.Effect) {
    && e.client.mac == c.mac && OwnLease(leased, e.client)
    && e.client.xid in {c.xid, nextXid}
    && (e.sent.Some? ==>
          && e.client.xid == nextXid && e.sent.value.xid == nextXid && e.sent.value.chaddr == c.mac
          && e.sent.value.op == BootRequest
          && (e.sent.value.kind == Request || (e.sent.value.kind == Discover && e.sent.value.requestedIp == 0)))
  }

  lemma MessageIsOwn(leased: S.Table, c: C.Client, m: Message, nextXid: nat, now: real)
    requires OwnLease(leased, c)
    requires m.xid == c.xid && m.kind == Offer ==> LeasedTo(leased, m.yiaddr, c.mac)
    ensures OwnEffect(leased, c, nextXid, C.HandleMessage(c, m, nextXid, now))
  {
    hide LeasedTo;
  }

  lemma TimerIsOwn(leased: S.Table, c: C.Client, kind: C.TimerType, nextXid: nat, now: real)
    requires OwnLease(leased, c)
    ensures OwnEffect(leased, c, nextXid, C.HandleTimerOf(C.Fired(c, kind), kind, nextXid, now))
  {
    hide LeasedTo;
  }

  /** The transaction id an event draws; events that draw none keep the client's. */
  ghost function Drawn(sys: System, e: Event): nat
    requires Enabled(sys, e) && !e.Pass? && !e.ToServer?
  {
    match e
    case ToClient(_, _, xid) => xid
    case Timer(_, _, xid) => xid
    case Associated(_, xid) => xid
    case Start(i, _) => sys.clients[i].xid
    case Stop(i, _) => sys.clients[i].xid
  }

  lemma EventIsOwn(sys: System, e: Event)
    requires Safe(sys) && Enabled(sys, e) && !e.Pass? && !e.ToServer?
    ensures OwnEffect(sys.leased, sys.clients[e.i], Drawn(sys, e), EffectOf(sys, e))
    ensures EffectOf(sys, e).sent.Some? || Drawn(sys, e) != sys.clients[e.i].xid ==> FreshXid(sys, Drawn(sys, e))
  {
    var c := sys.clients[e.i];
    match e
    case ToClient(i, m, xid) =>
      if m.xid == c.xid && m.kind == Offer {
        assert OwnTransaction(sys.sent, c) && TrueMessage(sys.cfg, sys.leased, m);
      }
      MessageIsOwn(sys.leased, c, m, xid, sys.now);
    case Timer(i, kind, xid) =>
      TimerIsOwn(sys.leased, c, kind, xid, sys.now);
    case _ =>
  }

  lemma SendingIsSafe(sys: System, i: nat, e: C.Effect, xid: nat)
    requires Safe(sys) && i < |sys.clients| && OwnEffect(sys.leased, sys.clients[i], xid, e)
    requires e.sent.Some? || xid != sys.clients[i].xid ==> FreshXid(sys, xid)
    ensures Safe(Sending(sys, i, e))
  {
    hide S.TableOk, LeasedTo, OwnLease;
    var after := Sending(sys, i, e);
    forall j | 0 <= j < |after.clients|
      ensures OwnTransaction(after.sent, after.clients[j])
    {
      assert OwnTransaction(sys.sent, sys.clients[j]);
    }
  }

  /** Every step keeps the system safe. */
  lemma StepIsSafe(sys: System, e: Event)
    requires Safe(sys) && Enabled(sys, e)
    ensures Safe(Apply(sys, e))
    ensures |Apply(sys, e).clients| == |sys.clients| && Apply(sys, e).cfg == sys.cfg
    ensures forall i | 0 <= i < |sys.clients| :: Apply(sys, e).clients[i].mac == sys.clients[i].mac
    ensures S.Keeps(sys.leased, Apply(sys, e).leased)
  {
    hide Safe, OwnLease;
    match e
    case Pass(until) => PassIsSafe(sys, until);
    case ToServer(m) =>
      ServerIsSafe(sys, m);
      TableOfSafe(sys);
      MessageOfSafe(sys, m);
      S.ProcessKeepsTable(sys.cfg, sys.leased, m, sys.now);
    case _ =>
      EventIsOwn(sys, e);
      SendingIsSafe(sys, e.i, EffectOf(sys, e), Drawn(sys, e));
  }

  lemma PassIsSafe(sys: System, until: real)
    requires Safe(sys)
    ensures Safe(sys.(now := until))
  {
  }

  lemma TableOfSafe(sys: System)
    requires Safe(sys)
    ensures S.TableOk(sys.cfg, sys.leased)
  {
  }

  lemma MessageOfSafe(sys: System, m: Message)
    requires Safe(sys) && m in sys.sent
    ensures TrueMessage(sys.cfg, sys.leased, m)
  {
  }

  /** A run: every event is enabled where it happens. */
  ghost predicate Possible(sys: System, run: seq<Event>)
    decreases |run|
  {
    run == [] || (Enabled(sys, run[0]) && Possible(Apply(sys, run[0]), run[1..]))
  }

  ghost function After(sys: System, run: seq<Event>): (end: System)
    requires Possible(sys, run)
    ensures |end.clients| == |sys.clients|
    decreases |run|
  {
    if run == [] then sys else After(Apply(sys, run[0]), run[1..])
  }

  lemma {:induction false} RunIsSafe(sys: System, run: seq<Event>)
    requires Safe(sys) && Possible(sys, run)
    ensures Safe(After(sys, run)) && S.Keeps(sys.leased, After(sys, run).leased)
    ensures After(sys, run).cfg == sys.cfg && |After(sys, run).clients| == |sys.clients|
    ensures forall i | 0 <= i < |sys.clients| :: After(sys, run).clients[i].mac == sys.clients[i].mac
    decreases |run|
  {
    hide Safe;
    if run != [] {
      StepIsSafe(sys, run[0]);
      RunIsSafe(Apply(sys, run[0]), run[1..]);
    }
  }

  /** The address a client has recorded, or its interface is configured with. */
  predicate Holds(c: C.Client, ip: Address) {
    (c.lease.Some? && c.lease.value.ip == ip) || (ip != 0 && c.address == ip)
  }

  /** Whatever happens, no two clients hold the same address, the server never takes a lease from its
      MAC, and it never has more leases than clients allowed. */
  lemma NoSharedAddress(sys: System, before: seq<Event>, later: seq<Event>, i: nat, j: nat, ip: Address)
    requires AtStart(sys) && Possible(sys, before) && Possible(After(sys, before), later)
    requires i < j < |sys.clients|
    ensures var s := After(sys, before);
      && !(Holds(s.clients[i], ip) && Holds(s.clients[j], ip))
      && S.OneLeasePerMac(s.leased) && |s.leased| <= sys.cfg.maxNumOfClients
      && S.Keeps(s.leased, After(s, later).leased)
  {
    RunIsSafe(sys, before);
    var s := After(sys, before);
    RunIsSafe(s, later);
    S.LeasesAreBounded(s.cfg, s.leased);
    assert OwnLease(s.leased, s.clients[i]) && OwnLease(s.leased, s.clients[j]);
    assert sys.clients[i].mac != sys.clients[j].mac;
  }

  /** START_DHCP goes off with no lease timer pending. */
  ghost predicate StartsClean(sys: System, e: Event)
    requires Enabled(sys, e)
  {
    e.Timer? && e.kind == C.StartDhcp ==> C.NoLeaseTimers(sys.clients[e.i])
  }

  /** Every client is orderly, no timer is overdue, and no message is for a client that never started. */
  ghost predicate InTime(sys: System) {
    && (forall i | 0 <= i < |sys.clients| :: C.Orderly(sys.clients[i]) && C.OnTime(sys.clients[i], sys.now))
    && (forall i | 0 <= i < |sys.clients| :: Unheard(sys.sent, sys.clients[i]))
  }

  ghost predicate Unheard(sent: set<Message>, c: C.Client) {
    c.state == C.Idle ==> forall m | m in sent :: m.xid != c.xid
  }

  /** The pool does not wrap around to the unspecified address. */
  ghost predicate Proper(cfg: S.Settings) {
    0 !in cfg.Pool(cfg.maxNumOfClients)
  }

  lemma MessageIsSensible(sys: System, m: Message)
    requires Safe(sys) && Proper(sys.cfg) && m in sys.sent
    ensures C.Sensible(m)
  {
    assert TrueMessage(sys.cfg, sys.leased, m);
  }

  lemma EventIsInTime(sys: System, e: Event)
    requires Safe(sys) && InTime(sys) && Proper(sys.cfg)
    requires Enabled(sys, e) && !e.Pass? && !e.ToServer? && StartsClean(sys, e)
    ensures var f := EffectOf(sys, e);
      f.error == C.NoError && C.Orderly(f.client) && C.OnTime(f.client, sys.now)
    ensures !(e.Timer? && e.kind == C.LeaseTimeout)
  {
    var c := sys.clients[e.i];
    assert C.Orderly(c) && C.OnTime(c, sys.now) && Unheard(sys.sent, c);
    hide S.TableOk, Safe, InTime;
    match e
    case ToClient(i, m, xid) =>
      MessageIsSensible(sys, m);
      C.MessageKeepsOrder(c, m, xid, sys.now);
    case Timer(i, kind, xid) =>
      C.TimerKeepsOrder(c, kind, xid, sys.now);
    case Associated(i, xid) =>
      C.AssociationKeepsOrder(c, xid, sys.now);
    case Start(i, start) =>
    case Stop(i, cleared) =>
  }

  /** A client that has not started is quiet about it. */
  lemma IdleIsSilent(sys: System, e: Event)
    requires Enabled(sys, e) && !e.Pass? && !e.ToServer?
    ensures var f := EffectOf(sys, e);
      f.client.state == C.Idle ==>
        f.sent.None? && sys.clients[e.i].state == C.Idle && f.client.xid == sys.clients[e.i].xid
  {
  }

  lemma SendingIsUnheard(sys: System, i: nat, f: C.Effect, xid: nat)
    requires i < |sys.clients| && forall j | 0 <= j < |sys.clients| :: Unheard(sys.sent, sys.clients[j])
    requires f.sent.Some? ==> f.sent.value.xid == xid && FreshXid(sys, xid)
    requires f.client.state == C.Idle ==>
      f.sent.None? && sys.clients[i].state == C.Idle && f.client.xid == sys.clients[i].xid
    ensures var after := Sending(sys, i, f);
      forall j | 0 <= j < |after.clients| :: Unheard(after.sent, after.clients[j])
  {
    var after := Sending(sys, i, f);
    forall j | 0 <= j < |after.clients|
      ensures Unheard(after.sent, after.clients[j])
    {
      assert Unheard(sys.sent, sys.clients[j]);
    }
  }

  lemma StepIsInTime(sys: System, e: Event)
    requires Safe(sys) && InTime(sys) && Proper(sys.cfg) && Enabled(sys, e) && StartsClean(sys, e)
    ensures InTime(Apply(sys, e))
  {
    hide S.TableOk, Safe, S.Process, S.TrueReply, C.Orderly;
    match e
    case Pass(until) =>
    case ToServer(m) =>
      TableOfSafe(sys);
      MessageOfSafe(sys, m);
      S.RepliesAreTrue(sys.cfg, sys.leased, m, sys.now);
      ReplyKeepsXid(sys, m);
      AnswerIsUnheard(sys, m);
    case _ =>
      ClientIsInTime(sys, e);
  }

  lemma ReplyKeepsXid(sys: System, m: Message)
    requires var a := S.Process(sys.cfg, sys.leased, m, sys.now);
      a.reply.Some? ==> S.TrueReply(sys.cfg, a.leased, m, a.reply.value)
    ensures var a := S.Process(sys.cfg, sys.leased, m, sys.now); a.reply.Some? ==> a.reply.value.xid == m.xid
  {
    hide S.Process;
  }

  lemma ClientIsInTime(sys: System, e: Event)
    requires Safe(sys) && InTime(sys) && Proper(sys.cfg) && Enabled(sys, e) && StartsClean(sys, e)
    requires !e.Pass? && !e.ToServer?
    ensures InTime(Apply(sys, e))
  {
    EventIsInTime(sys, e);
    EventIsOwn(sys, e);
    IdleIsSilent(sys, e);
    hide S.TableOk, Safe, EffectOf, Drawn, C.Orderly, C.OnTime, OwnLease, Enabled, StartsClean, Proper;
    SendingIsUnheard(sys, e.i, EffectOf(sys, e), Drawn(sys, e));
  }

  lemma AnswerIsUnheard(sys: System, m: Message)
    requires InTime(sys) && m in sys.sent
    requires var a := S.Process(sys.cfg, sys.leased, m, sys.now); a.reply.Some? ==> a.reply.value.xid == m.xid
    ensures InTime(Apply(sys, ToServer(m)))
  {
    hide S.Process, C.Orderly, C.OnTime;
    var after := Apply(sys, ToServer(m));
    forall i | 0 <= i < |after.clients|
      ensures Unheard(after.sent, after.clients[i])
    {
      assert Unheard(sys.sent, sys.clients[i]);
    }
  }

  ghost predicate AllStartClean(sys: System, run: seq<Event>)
    requires Possible(sys, run)
    decreases |run|
  {
    run == [] || (StartsClean(sys, run[0]) && AllStartClean(Apply(sys, run[0]), run[1..]))
  }

  /** The timers of every client that has passed START_DHCP match its state. */
  ghost predicate Matched(sys: System) {
    forall i | 0 <= i < |sys.clients| && sys.clients[i].operational && sys.clients[i].startTimer.None? ::
      C.TimersMatch(sys.clients[i])
  }

  ghost predicate AlwaysMatched(sys: System, run: seq<Event>)
    requires Possible(sys, run)
    decreases |run|
  {
    Matched(sys) && (run == [] || AlwaysMatched(Apply(sys, run[0]), run[1..]))
  }

  /** No client throws an error, and no lease timer goes off. */
  ghost predicate NoErrors(sys: System, run: seq<Event>)
    requires Possible(sys, run)
    decreases |run|
  {
    run == [] ||
    (&& (!run[0].Pass? && !run[0].ToServer? ==>
           EffectOf(sys, run[0]).error == C.NoError && !(run[0].Timer? && run[0].kind == C.LeaseTimeout))
     && NoErrors(Apply(sys, run[0]), run[1..]))
  }

  lemma InTimeIsMatched(sys: System)
    requires InTime(sys)
    ensures Matched(sys)
  {
  }

  /** A start that is not clean leaves a client whose timers do not match. */
  lemma UncleanStart(sys: System, e: Event)
    requires InTime(sys) && Enabled(sys, e) && !StartsClean(sys, e)
    ensures !Matched(Apply(sys, e))
  {
    var c := sys.clients[e.i];
    assert C.Orderly(c);
    C.StartMatchesExactly(c, e.nextXid, sys.now);
    var after := Apply(sys, e);
    assert after.clients[e.i] == EffectOf(sys, e).client;
  }

  lemma {:induction false} RunIsInTime(sys: System, run: seq<Event>)
    requires Safe(sys) && InTime(sys) && Proper(sys.cfg) && Possible(sys, run)
    ensures AlwaysMatched(sys, run) <==> AllStartClean(sys, run)
    ensures AllStartClean(sys, run) ==> InTime(After(sys, run)) && NoErrors(sys, run)
    decreases |run|
  {
    InTimeIsMatched(sys);
    if run != [] {
      if StartsClean(sys, run[0]) {
        hide Safe, InTime, Apply, EffectOf, Matched, StartsClean;
        StepIsSafe(sys, run[0]);
        StepIsInTime(sys, run[0]);
        if !run[0].Pass? && !run[0].ToServer? {
          EventIsInTime(sys, run[0]);
        }
        RunIsInTime(Apply(sys, run[0]), run[1..]);
      } else {
        UncleanStart(sys, run[0]);
      }
    }
  }

  /** From the start of the simulation: the timers of every client match its state at every moment from its
      START_DHCP on exactly when no START_DHCP finds a lease timer pending, and then neither "T2 in wrong
      state" nor "Invalid state" nor any other client error can happen. */
  lemma TimersMatchStatesExactly(sys: System, run: seq<Event>)
    requires AtStart(sys) && Proper(sys.cfg) && Possible(sys, run)
    ensures AlwaysMatched(sys, run) <==> AllStartClean(sys, run)
    ensures AllStartClean(sys, run) ==> NoErrors(sys, run)
  {
    RunIsInTime(sys, run);
  }

  /** The event binds no client that still waits for its start. */
  ghost predicate BindsNobodyEarly(sys: System, e: Event)
    requires Enabled(sys, e)
  {
    e.ToClient? ==> !C.BindsEarly(sys.clients[e.i], e.m)
  }

  ghost predicate NobodyBoundEarly(sys: System, run: seq<Event>)
    requires Possible(sys, run)
    decreases |run|
  {
    run == [] || (BindsNobodyEarly(sys, run[0]) && NobodyBoundEarly(Apply(sys, run[0]), run[1..]))
  }

  /** No client that waits for its start has a lease timer pending. */
  ghost predicate WaitingClean(sys: System) {
    forall i | 0 <= i < |sys.clients| && sys.clients[i].startTimer.Some? :: C.NoLeaseTimers(sys.clients[i])
  }

  lemma StaysClean(sys: System, e: Event)
    requires InTime(sys) && WaitingClean(sys) && Enabled(sys, e) && BindsNobodyEarly(sys, e)
    ensures StartsClean(sys, e) && WaitingClean(Apply(sys, e))
  {
    if !e.Pass? && !e.ToServer? {
      var c := sys.clients[e.i];
      assert C.Orderly(c) && (c.startTimer.Some? ==> C.NoLeaseTimers(c));
      ClientStaysClean(sys, e, c);
      hide EffectOf, C.NoLeaseTimers;
      forall i | 0 <= i < |sys.clients| && Apply(sys, e).clients[i].startTimer.Some?
        ensures C.NoLeaseTimers(Apply(sys, e).clients[i])
      {
        if i != e.i {
          assert Apply(sys, e).clients[i] == sys.clients[i];
        }
      }
    }
  }

  lemma ClientStaysClean(sys: System, e: Event, c: C.Client)
    requires Enabled(sys, e) && !e.Pass? && !e.ToServer? && BindsNobodyEarly(sys, e)
    requires c == sys.clients[e.i] && C.Orderly(c) && (c.startTimer.Some? ==> C.NoLeaseTimers(c))
    ensures EffectOf(sys, e).client.startTimer.Some? ==> C.NoLeaseTimers(EffectOf(sys, e).client)
  {
  }

  lemma {:induction false} NobodyBoundIsClean(sys: System, run: seq<Event>)
    requires Safe(sys) && InTime(sys) && Proper(sys.cfg) && WaitingClean(sys)
    requires Possible(sys, run) && NobodyBoundEarly(sys, run)
    ensures AllStartClean(sys, run)
    decreases |run|
  {
    if run != [] {
      hide Safe, InTime, Apply, StartsClean, WaitingClean, BindsNobodyEarly;
      StaysClean(sys, run[0]);
      StepIsSafe(sys, run[0]);
      StepIsInTime(sys, run[0]);
      NobodyBoundIsClean(Apply(sys, run[0]), run[1..]);
    }
  }

  /** So whenever no late acknowledgement binds a client between its restart and its START_DHCP, the timers
      match the states throughout: offers, refusals, timeouts and associations in that time do no harm. */
  lemma TimersMatchStates(sys: System, run: seq<Event>)
    requires AtStart(sys) && Proper(sys.cfg) && Possible(sys, run) && NobodyBoundEarly(sys, run)
    ensures AlwaysMatched(sys, run) && NoErrors(sys, run)
  {
    NobodyBoundIsClean(sys, run);
    TimersMatchStatesExactly(sys, run);
  }
}
