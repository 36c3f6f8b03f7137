/** The DHCP client: its states, its timers and what it sends. */
module DhcpClients {
  import opened DhcpMessages
  import opened Sequences

  datatype ClientState = Idle | Init | InitReboot | Rebooting | Selecting | Requesting | Bound | Renewing | Rebinding

  datatype TimerType = WaitOffer | WaitAck | T1 | T2 | LeaseTimeout | StartDhcp

  /** The errors the client throws, and the use of a lease it does not have. */
  datatype Error = NoError | InvalidState | T2InWrongState | UnknownState | NoLease

  datatype Lease = Lease(ip: Address, serverId: Address, renewalTime: real, rebindTime: real, leaseTime: real)

  /** A client.  A timer is the time it goes off at, if it is pending; `awaits` is the kind of the response
      timeout; `address` is what the interface is configured with. */
  datatype Client = Client(mac: Mac, operational: bool, state: ClientState, xid: nat, lease: Option<Lease>,
                           address: Address, timerTo: Option<real>, awaits: TimerType, timerT1: Option<real>,
                           timerT2: Option<real>, leaseTimer: Option<real>, startTimer: Option<real>)

  const RESPONSE_TIMEOUT := 60.0

  datatype Effect = Effect(client: Client, sent: Option<Message>, error: Error)

  function Quiet(c: Client): Effect {
    Effect(c, None, NoError)
  }

  function CancelAll(c: Client): Client {
    c.(timerT1 := None, timerT2 := None, timerTo := None, leaseTimer := None)
  }

  function ScheduleTO(c: Client, kind: TimerType, now: real): Client {
    c.(timerTo := Some(now + RESPONSE_TIMEOUT), awaits := kind)
  }

  /** The request the current state calls for. */
  function RequestOf(c: Client, lease: Lease): Message {
    var m := Plain(BootRequest, Request, c.xid, c.mac);
    match c.state
    case InitReboot => m.(requestedIp := lease.ip)
    case Requesting => m.(serverId := lease.serverId, requestedIp := lease.ip)
    case _ => m.(ciaddr := lease.ip)
  }

  /** sendRequest with a newly drawn transaction id. */
  function SendRequestOf(c: Client, nextXid: nat): Effect {
    var now := c.(xid := nextXid);
    if c.state !in {InitReboot, Requesting, Renewing, Rebinding} then Effect(now, None, InvalidState)
    else match c.lease
      case None => Effect(now, None, NoLease)
      case Some(lease) => Effect(now, Some(RequestOf(now, lease)), NoError)
  }

  function InitClientOf(c: Client, nextXid: nat, now: real): Effect {
    var d := CancelAll(c).(xid := nextXid);
    Effect(ScheduleTO(d, WaitOffer, now).(state := Selecting),
           Some(Plain(BootRequest, Discover, nextXid, c.mac)), NoError)
  }

  /** initRebootedClient. */
  function InitRebooted(c: Client, nextXid: nat, now: real): Effect {
    var e := SendRequestOf(c, nextXid);
    if e.error != NoError then e else e.(client := ScheduleTO(e.client, WaitAck, now).(state := Rebooting))
  }

  /** unboundLease. */
  function Unbound(c: Client): Client {
    CancelAll(c).(address := 0)
  }

  function RecordOfferOf(c: Client, m: Message): Client {
    if m.yiaddr == 0 then c else c.(lease := Some(Lease(m.yiaddr, m.serverId, 0.0, 0.0, 0.0)))
  }

  /** handleDHCPACK: records the times, schedules the timers and configures the interface. */
  function HandleAck(c: Client, m: Message, now: real): Effect {
    match c.lease
    case None => Effect(c, None, NoLease)
    case Some(known) =>
      var lease := if m.yiaddr == 0 then known
        else known.(leaseTime := m.leaseTime, renewalTime := m.renewalTime, rebindTime := m.rebindingTime);
      Quiet(c.(lease := Some(lease), timerTo := None, timerT1 := Some(now + lease.renewalTime),
               timerT2 := Some(now + lease.rebindTime), address := lease.ip,
               leaseTimer := Some(now + lease.leaseTime), state := Bound))
  }

  /** A reply to a request: an acknowledgement binds, a refusal starts over. */
  function HandleReply(c: Client, m: Message, nextXid: nat, now: real, bound: bool): Effect {
    match m.kind
    case Ack => HandleAck(c, m, now)
    case Nak => InitClientOf(if bound then Unbound(c) else c, nextXid, now)
    case _ => Quiet(c)
  }

  /** handleDHCPMessage. */
  function HandleMessage(c: Client, m: Message, nextXid: nat, now: real): Effect {
    if !c.operational || m.op != BootReply || m.xid != c.xid then Quiet(c)
    else match c.state
      case Init => Quiet(c)
      case Selecting =>
        if m.kind == Offer then
          SendRequestOf(RecordOfferOf(ScheduleTO(c, WaitAck, now).(state := Requesting), m), nextXid)
        else Quiet(c)
      case Requesting => HandleReply(c, m, nextXid, now, false)
      case Bound => Quiet(c)
      case Renewing => HandleReply(c, m, nextXid, now, true)
      case Rebinding => HandleReply(c, m, nextXid, now, true)
      case Rebooting => HandleReply(c, m, nextXid, now, false)
      case _ => Effect(c, None, UnknownState)
  }

  /** When the timer of a kind goes off. */
  function Pending(c: Client, kind: TimerType): Option<real> {
    match kind
    case T1 => c.timerT1
    case T2 => c.timerT2
    case LeaseTimeout => c.leaseTimer
    case StartDhcp => c.startTimer
    case _ => if c.awaits == kind then c.timerTo else None
  }

  /** A timer that goes off is no longer pending. */
  function Fired(c: Client, kind: TimerType): Client {
    match kind
    case T1 => c.(timerT1 := None)
    case T2 => c.(timerT2 := None)
    case LeaseTimeout => c.(leaseTimer := None)
    case StartDhcp => c.(startTimer := None)
    case _ => c.(timerTo := None)
  }

  /** handleTimer. */
  function HandleTimerOf(c: Client, kind: TimerType, nextXid: nat, now: real): Effect {
    if !c.operational then Quiet(c)
    else match kind
      case StartDhcp =>
        if c.lease.Some? then InitRebooted(c.(state := InitReboot), nextXid, now)
        else InitClientOf(c.(state := Init), nextXid, now)
      case WaitOffer => InitClientOf(c, nextXid, now)
      case WaitAck => InitClientOf(c, nextXid, now)
      case T1 => SendRequestOf(ScheduleTO(c.(state := Renewing), WaitAck, now), nextXid)
      case T2 =>
        if c.state != Renewing then Effect(c, None, T2InWrongState)
        else
          var e := SendRequestOf(CancelAll(c.(state := Rebinding)), nextXid);
          if e.error != NoError then e else e.(client := ScheduleTO(e.client, WaitAck, now))
      case LeaseTimeout => InitClientOf(Unbound(c).(state := Init), nextXid, now)
  }

  /** startApp, on an interface without an address. */
  function Started(c: Client, start: real): Client {
    c.(operational := true, startTimer := Some(start))
  }

  /** stopApp: no timer is left. */
  function Stopped(c: Client): Client {
    CancelAll(c).(operational := false, startTimer := None)
  }

  /** A client at the start of a simulation. */
  function Initial(mac: Mac, start: Option<real>): Client {
    Client(mac, start.Some?, Idle, 0, None, 0, None, WaitOffer, None, None, None, start)
  }

  /** Pending timers match the state (section 4.4.5 of RFC 2131). */
  predicate TimersMatch(c: Client) {
    match c.state
    case Selecting => c.timerTo.Some? && c.awaits == WaitOffer && NoLeaseTimers(c)
    case Requesting => c.timerTo.Some? && c.awaits == WaitAck && NoLeaseTimers(c)
    case Rebooting => c.timerTo.Some? && c.awaits == WaitAck && NoLeaseTimers(c)
    case Rebinding => c.timerTo.Some? && c.awaits == WaitAck && NoLeaseTimers(c)
    case Bound =>
      && c.timerTo.None? && c.timerT1.Some? && c.timerT2.Some? && c.leaseTimer.Some?
      && c.timerT1.value <= c.timerT2.value <= c.leaseTimer.value
    case Renewing =>
      && c.timerTo.Some? && c.awaits == WaitAck && c.timerT1.None? && c.timerT2.Some? && c.leaseTimer.Some?
      && c.timerT2.value <= c.leaseTimer.value
    case _ => false
  }

  predicate NoLeaseTimers(c: Client) {
    c.timerT1.None? && c.timerT2.None? && c.leaseTimer.None?
  }

  /** A lease is recorded wherever the state says so, and no state that ends within a handler is left. */
  predicate LeaseRecorded(c: Client) {
    && c.state != Init && c.state != InitReboot
    && (c.state in {Requesting, Rebooting, Bound, Renewing, Rebinding} ==> c.lease.Some?)
  }

  /** The timers of a stopped, a waiting and a running client.  A client that waits for its start has no
      lease timers, unless it has been bound early. */
  predicate Orderly(c: Client) {
    && LeaseRecorded(c)
    && (if !c.operational then NoLeaseTimers(c) && c.timerTo.None? && c.startTimer.None?
        else if c.startTimer.Some? then NoLeaseTimers(c) || TimersMatch(c)
        else TimersMatch(c))
  }

  /** No timer of the client should have gone off before `now`. */
  predicate OnTime(c: Client, now: real) {
    forall kind | Pending(c, kind).Some? :: now <= Pending(c, kind).value
  }

  /** A timer goes off now.  Timers of the same time go off in the order in which they were scheduled, and
      T1, T2 and the lease timer are always scheduled together, in this order. */
  predicate Due(c: Client, kind: TimerType, now: real) {
    && Pending(c, kind) == Some(now)
    && (kind == T2 && c.timerT1.Some? ==> now < c.timerT1.value)
    && (kind == LeaseTimeout && c.timerT2.Some? ==> now < c.timerT2.value)
  }

  /** What a server sends: an address, and times in order. */
  predicate Sensible(m: Message) {
    m.kind == Offer || m.kind == Ack ==> m.yiaddr != 0 && 0.0 <= m.renewalTime <= m.rebindingTime <= m.leaseTime
  }

  /** A reply of the client's own transaction. */
  predicate Heard(c: Client, m: Message) {
    c.operational && m.op == BootReply && m.xid == c.xid
  }

  /** A late acknowledgement that binds a client while it still waits for its start. */
  predicate BindsEarly(c: Client, m: Message) {
    c.startTimer.Some? && Heard(c, m) && m.kind == Ack && c.state in {Requesting, Rebooting, Renewing, Rebinding}
  }

  /** A message keeps a client orderly and raises no error. */
  lemma MessageKeepsOrder(c: Client, m: Message, nextXid: nat, now: real)
    requires Orderly(c) && OnTime(c, now) && Sensible(m)
    requires c.state == Idle ==> !Heard(c, m)
    ensures var e := HandleMessage(c, m, nextXid, now);
      e.error == NoError && Orderly(e.client) && OnTime(e.client, now)
  {
    assert Pending(c, StartDhcp) == c.startTimer;
  }

  /** A timer that goes off in time keeps a client orderly and raises no error, provided no lease timers are
      pending at the start: the second lease timer never finds the wrong state, and the lease timer never
      goes off at all. */
  lemma TimerKeepsOrder(c: Client, kind: TimerType, nextXid: nat, now: real)
    requires Orderly(c) && OnTime(c, now) && Due(c, kind, now)
    requires kind == StartDhcp ==> NoLeaseTimers(c)
    ensures var e := HandleTimerOf(Fired(c, kind), kind, nextXid, now);
      e.error == NoError && Orderly(e.client) && OnTime(e.client, now)
    ensures kind != LeaseTimeout
  {
    assert Pending(c, T1) == c.timerT1 && Pending(c, T2) == c.timerT2 && Pending(c, StartDhcp) == c.startTimer;
  }

  /** An association at any time, even before the start, only leaves the offer timeout pending. */
  lemma AssociationKeepsOrder(c: Client, nextXid: nat, now: real)
    requires Orderly(c) && c.operational && OnTime(c, now)
    ensures var e := InitClientOf(c, nextXid, now);
      e.error == NoError && Orderly(e.client) && OnTime(e.client, now) && NoLeaseTimers(e.client)
  {
    assert Pending(c, StartDhcp) == c.startTimer;
  }

  /** From START_DHCP on the timers match the state exactly when no lease timer was pending then. */
  lemma StartMatchesExactly(c: Client, nextXid: nat, now: real)
    requires Orderly(c) && Due(c, StartDhcp, now) && c.operational
    ensures TimersMatch(HandleTimerOf(Fired(c, StartDhcp), StartDhcp, nextXid, now).client) <==>
            NoLeaseTimers(c)
  {
  }

  /** Of all messages that reach a client waiting for its start, exactly those that bind it early leave
      timers that do not match its state from START_DHCP on. */
  lemma EarlyBindExactly(c: Client, m: Message, nextXid: nat, now: real, startXid: nat, start: real)
    requires Orderly(c) && c.operational && c.startTimer == Some(start) && NoLeaseTimers(c)
    ensures var e := HandleMessage(c, m, nextXid, now).client;
      && (NoLeaseTimers(e) <==> !BindsEarly(c, m))
      && (TimersMatch(HandleTimerOf(Fired(e, StartDhcp), StartDhcp, startXid, start).client) <==> !BindsEarly(c, m))
  {
  }

  /** An early acknowledgement that does harm: the node restarts with a request under way and DHCP to start
      at 60; the acknowledgement comes at 0, T1 goes off at 50, and T2 at 87.5 finds the client REBOOTING. */
  lemma EarlyAckBreaksT2()
    ensures exists c: Client, m: Message ::
      && Orderly(c) && NoLeaseTimers(c) && Sensible(m) && BindsEarly(c, m)
      && var bound := HandleMessage(c, m, 6, 0.0).client;
      && Due(bound, T1, 50.0) && OnTime(bound, 50.0)
      && var renewing := HandleTimerOf(Fired(bound, T1), T1, 7, 50.0).client;
      && Due(renewing, StartDhcp, 60.0) && OnTime(renewing, 60.0)
      && var rebooting := HandleTimerOf(Fired(renewing, StartDhcp), StartDhcp, 8, 60.0).client;
      && Due(rebooting, T2, 87.5) && OnTime(rebooting, 87.5)
      && HandleTimerOf(Fired(rebooting, T2), T2, 9, 87.5).error == T2InWrongState
  {
    var c := Client(1, true, Requesting, 5, Some(Lease(10, 20, 0.0, 0.0, 0.0)), 0, None, WaitAck, None, None, None,
                    Some(60.0));
    var m := Plain(BootReply, Ack, 5, 1).(yiaddr := 10, renewalTime := 50.0, rebindingTime := 87.5, leaseTime := 100.0);
    assert BindsEarly(c, m);
  }

  /** The lease timer, T1 or T2 of a client just bound that goes off first. */
  predicate FirstAfterBinding(b: Client, kind: TimerType) {
    && Due(b, kind, if Pending(b, kind).Some? then Pending(b, kind).value else 0.0)
    && forall k | k in {T1, T2, LeaseTimeout} && Pending(b, k).Some? :: Pending(b, kind).value <= Pending(b, k).value
  }

  /** A client just bound, in whatever state it waited for the acknowledgement: T2 is the first of its lease
      timers to go off, and is then an error, exactly when the acknowledgement has its times out of order. */
  lemma T2FirstExactly(c: Client, m: Message, nextXid: nat, now: real)
    requires Orderly(c) && c.state in {Requesting, Rebooting, Renewing, Rebinding} && Heard(c, m) && m.kind == Ack
    requires m.yiaddr != 0
    ensures var b := HandleMessage(c, m, nextXid, now).client;
      && b.state == Bound && b.timerT2 == Some(now + m.rebindingTime)
      && (FirstAfterBinding(b, T2) <==> m.rebindingTime < m.renewalTime && m.rebindingTime <= m.leaseTime)
      && HandleTimerOf(Fired(b, T2), T2, nextXid, now + m.rebindingTime).error == T2InWrongState
  {
    var b := HandleMessage(c, m, nextXid, now).client;
    assert Pending(b, T1) == b.timerT1 && Pending(b, LeaseTimeout) == b.leaseTimer && Pending(b, T2) == b.timerT2;
  }

  class DHCPClient {
    const macAddress: Mac
    var isOperational: bool
    var clientState: ClientState
    var xid: nat
    var lease: Option<Lease>
    var address: Address
    var timerTo: Option<real>
    var awaits: TimerType
    var timerT1: Option<real>
    var timerT2: Option<real>
    var leaseTimer: Option<real>
    var startTimer: Option<real>

    ghost function View(): Client
      reads this
    {
      Client(macAddress, isOperational, clientState, xid, lease, address, timerTo, awaits, timerT1, timerT2,
             leaseTimer, startTimer)
    }

    /** A client at the start of a simulation: idle, and waiting for its start time if its node is up. */
    constructor (mac: Mac, up: bool, start: real)
      ensures View() == Initial(mac, if up then Some(start) else None) && Orderly(View())
    {
      macAddress, isOperational, clientState, xid, lease, address := mac, up, Idle, 0, None, 0;
      timerTo, awaits, timerT1, timerT2, leaseTimer := None, WaitOffer, None, None, None;
      startTimer := if up then Some(start) else None;
    }

    method SendRequest(nextXid: nat) returns (sent: Option<Message>, error: Error)
      modifies `xid
      ensures Effect(View(), sent, error) == SendRequestOf(old(View()), nextXid)
    {
      xid := nextXid;
      sent, error := None, NoError;
      if clientState !in {InitReboot, Requesting, Renewing, Rebinding} {
        error := InvalidState;
      } else if lease == None {
        error := NoLease;
      } else {
        var request := Plain(BootRequest, Request, xid, macAddress);
        if clientState == InitReboot {
          request := request.(requestedIp := lease.value.ip);
        } else if clientState == Requesting {
          request := request.(serverId := lease.value.serverId, requestedIp := lease.value.ip);
        } else {
          request := request.(ciaddr := lease.value.ip);
        }
        sent := Some(request);
      }
    }

    method SendDiscover(nextXid: nat) returns (sent: Message)
      modifies `xid
      ensures xid == nextXid && sent == Plain(BootRequest, Discover, xid, macAddress)
    {
      xid := nextXid;
      sent := Plain(BootRequest, Discover, xid, macAddress);
    }

    method CancelTimers()
      modifies `timerTo, `timerT1, `timerT2, `leaseTimer
      ensures View() == CancelAll(old(View()))
    {
      timerT1 := None;
      timerT2 := None;
      timerTo := None;
      leaseTimer := None;
    }

    method ScheduleTimerTO(kind: TimerType, now: real)
      modifies `timerTo, `awaits
      ensures View() == ScheduleTO(old(View()), kind, now)
    {
      awaits := kind;
      timerTo := Some(now + RESPONSE_TIMEOUT);
    }

    method InitClient(nextXid: nat, now: real) returns (sent: Option<Message>)
      modifies this
      ensures Effect(View(), sent, NoError) == InitClientOf(old(View()), nextXid, now)
    {
      CancelTimers();
      var discover := SendDiscover(nextXid);
      ScheduleTimerTO(WaitOffer, now);
      clientState := Selecting;
      sent := Some(discover);
    }

    method UnboundLease()
      modifies this
      ensures View() == Unbound(old(View()))
    {
      CancelTimers();
      address := 0;
    }

    method RecordOffer(m: Message)
      modifies `lease
      ensures View() == RecordOfferOf(old(View()), m)
    {
      if m.yiaddr != 0 {
        lease := Some(Lease(m.yiaddr, m.serverId, 0.0, 0.0, 0.0));
      }
    }

    /** recordLease, the timers of the lease, and bindLease; the caller moves on to BOUND. */
    method HandleDHCPACK(m: Message, now: real) returns (error: Error)
      modifies this
      ensures error == HandleAck(old(View()), m, now).error
      ensures error == NoError ==> View().(state := Bound) == HandleAck(old(View()), m, now).client
      ensures error != NoError ==> View() == old(View())
    {
      error := NoError;
      if lease == None {
        return NoLease;
      }
      if m.yiaddr != 0 {
        lease := Some(lease.value.(leaseTime := m.leaseTime, renewalTime := m.renewalTime,
                                   rebindTime := m.rebindingTime));
      }
      timerTo := None;
      timerT1 := Some(now + lease.value.renewalTime);
      timerT2 := Some(now + lease.value.rebindTime);
      address := lease.value.ip;
      leaseTimer := Some(now + lease.value.leaseTime);
    }

    method HandleDHCPMessage(m: Message, nextXid: nat, now: real) returns (sent: Option<Message>, error: Error)
      modifies this
      ensures Effect(View(), sent, error) == HandleMessage(old(View()), m, nextXid, now)
    {
      sent, error := None, NoError;
      if !isOperational || m.op != BootReply || m.xid != xid {
        return;
      }
      match clientState {
        case Init =>
        case Selecting =>
          if m.kind == Offer {
            ScheduleTimerTO(WaitAck, now);
            clientState := Requesting;
            RecordOffer(m);
            sent, error := SendRequest(nextXid);
          }
        case Bound =>
        case Requesting =>
          if m.kind == Ack {
            error := HandleDHCPACK(m, now);
            if error == NoError {
              clientState := Bound;
            }
          } else if m.kind == Nak {
            sent := InitClient(nextXid, now);
          }
        case Rebooting =>
          if m.kind == Ack {
            error := HandleDHCPACK(m, now);
            if error == NoError {
              clientState := Bound;
            }
          } else if m.kind == Nak {
            sent := InitClient(nextXid, now);
          }
        case Renewing =>
          sent, error := HandleExtension(m, nextXid, now);
        case Rebinding =>
          sent, error := HandleExtension(m, nextXid, now);
        case _ =>
          error := UnknownState;
      }
    }

    /** A message in RENEWING or REBINDING: a refusal also halts the network. */
    method HandleExtension(m: Message, nextXid: nat, now: real) returns (sent: Option<Message>, error: Error)
      modifies this
      ensures Effect(View(), sent, error) == HandleReply(old(View()), m, nextXid, now, true)
    {
      sent, error := None, NoError;
      if m.kind == Ack {
        error := HandleDHCPACK(m, now);
        if error == NoError {
          clientState := Bound;
        }
      } else if m.kind == Nak {
        UnboundLease();
        sent := InitClient(nextXid, now);
      }
    }

    /** The timer that has just gone off is no longer pending. */
    method HandleTimer(kind: TimerType, nextXid: nat, now: real) returns (sent: Option<Message>, error: Error)
      modifies this
      ensures Effect(View(), sent, error) == HandleTimerOf(old(View()), kind, nextXid, now)
    {
      sent, error := None, NoError;
      if !isOperational {
        return;
      }
      match kind {
        case StartDhcp =>
          if lease.Some? {
            clientState := InitReboot;
            sent, error := SendRequest(nextXid);
            if error == NoError {
              ScheduleTimerTO(WaitAck, now);
              clientState := Rebooting;
            }
          } else {
            clientState := Init;
            sent := InitClient(nextXid, now);
          }
        case WaitOffer =>
          sent := InitClient(nextXid, now);
        case WaitAck =>
          sent := InitClient(nextXid, now);
        case T1 =>
          clientState := Renewing;
          ScheduleTimerTO(WaitAck, now);
          sent, error := SendRequest(nextXid);
        case T2 =>
          if clientState == Renewing {
            clientState := Rebinding;
            CancelTimers();
            sent, error := SendRequest(nextXid);
            if error == NoError {
              ScheduleTimerTO(WaitAck, now);
            }
          } else {
            error := T2InWrongState;
          }
        case LeaseTimeout =>
          UnboundLease();
          clientState := Init;
          sent := InitClient(nextXid, now);
      }
    }

    /** chooseInterface refuses an interface that already has an address. */
    method StartApp(start: real) returns (accepted: bool)
      modifies `isOperational, `startTimer
      ensures accepted <==> address == 0
      ensures View() == if accepted then Started(old(View()), start) else old(View())
    {
      accepted := address == 0;
      if accepted {
        startTimer := Some(start);
        isOperational := true;
      }
    }

    method StopApp()
      modifies this
      ensures View() == Stopped(old(View()))
    {
      CancelTimers();
      startTimer := None;
      isOperational := false;
    }
  }
}
