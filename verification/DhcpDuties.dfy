/** What a DHCP client does on each timer and on each message, field by field, and that it never falls silent. */
module DhcpDuties {
  import opened DhcpMessages
  import opened DhcpClients
  import N = DhcpNetworks
  import opened Sequences

  /** A DISCOVER that asks for any address. */
  predicate IsDiscover(m: Message, xid: nat, mac: Mac) {
    && m.op == BootRequest && m.kind == Discover && m.xid == xid && m.chaddr == mac
    && m.ciaddr == 0 && m.yiaddr == 0 && m.requestedIp == 0 && m.serverId == 0
  }

  /** A REQUEST with these three addresses. */
  predicate IsRequest(m: Message, xid: nat, mac: Mac, ciaddr: Address, requestedIp: Address, serverId: Address) {
    && m.op == BootRequest && m.kind == Request && m.xid == xid && m.chaddr == mac && m.yiaddr == 0
    && m.ciaddr == ciaddr && m.requestedIp == requestedIp && m.serverId == serverId
  }

  /** What no timer and no message changes. */
  predicate SameClient(c: Client, d: Client) {
    d.mac == c.mac && d.operational == c.operational && d.startTimer == c.startTimer
  }

  /** The client starts over: a DISCOVER is sent, and for a minute an offer is waited for. */
  predicate StartsOver(c: Client, e: Effect, xid: nat, now: real, address: Address) {
    && e.error == NoError && e.sent.Some? && IsDiscover(e.sent.value, xid, c.mac)
    && e.client.state == Selecting && e.client.xid == xid
    && e.client.timerTo == Some(now + 60.0) && e.client.awaits == WaitOffer
    && e.client.timerT1 == None && e.client.timerT2 == None && e.client.leaseTimer == None
    && e.client.lease == c.lease && e.client.address == address && SameClient(c, e.client)
  }

  /** The client has asked for a lease, and for a minute an answer is waited for. */
  predicate HasAsked(c: Client, e: Effect, xid: nat, now: real, state: ClientState, lease: Lease) {
    && e.error == NoError && e.sent.Some? && e.client.state == state && e.client.xid == xid
    && e.client.timerTo == Some(now + 60.0) && e.client.awaits == WaitAck
    && e.client.lease == Some(lease) && e.client.address == c.address && SameClient(c, e.client)
    && IsRequest(e.sent.value, xid, c.mac,
                 if state == Renewing || state == Rebinding then lease.ip else 0,
                 if state == Requesting || state == Rebooting then lease.ip else 0,
                 if state == Requesting then lease.serverId else 0)
  }

  predicate SameLeaseTimers(c: Client, d: Client) {
    d.timerT1 == c.timerT1 && d.timerT2 == c.timerT2 && d.leaseTimer == c.leaseTimer
  }

  /** A response timeout in whatever state, a start without a lease, and the end of a lease start over. */
  lemma TimeoutStartsOver(c: Client, kind: TimerType, nextXid: nat, now: real)
    requires c.operational && (kind in {WaitOffer, WaitAck, LeaseTimeout} || (kind == StartDhcp && c.lease.None?))
    ensures StartsOver(c, HandleTimerOf(c, kind, nextXid, now), nextXid, now,
                       if kind == LeaseTimeout then 0 else c.address)
  {
  }

  /** The other timers ask for the known lease: T1 renews it and leaves T2 and the end of the lease pending, T2
      rebinds it and cancels all lease timers, a start with a lease reboots. */
  lemma TimerAsks(c: Client, kind: TimerType, nextXid: nat, now: real)
    requires c.operational && c.lease.Some? && kind in {T1, T2, StartDhcp} && (kind == T2 ==> c.state == Renewing)
    ensures var e := HandleTimerOf(c, kind, nextXid, now);
      && HasAsked(c, e, nextXid, now,
                  if kind == T1 then Renewing else if kind == T2 then Rebinding else Rebooting, c.lease.value)
      && (if kind == T2 then NoLeaseTimers(e.client) else SameLeaseTimers(c, e.client))
  {
  }

  /** An offer is taken up by the client that selects. */
  lemma OfferIsTaken(c: Client, m: Message, nextXid: nat, now: real)
    requires Heard(c, m) && c.state == Selecting && m.kind == Offer && m.yiaddr != 0
    ensures var e := HandleMessage(c, m, nextXid, now);
      && e.client.lease == Some(Lease(m.yiaddr, m.serverId, 0.0, 0.0, 0.0))
      && HasAsked(c, e, nextXid, now, Requesting, e.client.lease.value) && SameLeaseTimers(c, e.client)
  {
  }

  /** A refusal starts over; while renewing or rebinding the address is given up, otherwise it is kept. */
  lemma RefusalStartsOver(c: Client, m: Message, nextXid: nat, now: real)
    requires Heard(c, m) && m.kind == Nak && c.state in {Requesting, Rebooting, Renewing, Rebinding}
    ensures StartsOver(c, HandleMessage(c, m, nextXid, now), nextXid, now,
                       if c.state == Renewing || c.state == Rebinding then 0 else c.address)
  {
  }

  /** An acknowledgement binds: the times of the lease are recorded and counted from now, the address is configured,
      nothing is sent. */
  lemma AckBinds(c: Client, m: Message, nextXid: nat, now: real)
    requires Heard(c, m) && m.kind == Ack && c.state in {Requesting, Rebooting, Renewing, Rebinding} && c.lease.Some?
    ensures var e := HandleMessage(c, m, nextXid, now);
      && e.error == NoError && e.sent == None && e.client.state == Bound && e.client.xid == c.xid
      && e.client.lease.Some?
      && var lease := e.client.lease.value;
      && lease.ip == c.lease.value.ip && lease.serverId == c.lease.value.serverId
      && (m.yiaddr == 0 ==> lease == c.lease.value)
      && (m.yiaddr != 0 ==> lease.renewalTime == m.renewalTime && lease.rebindTime == m.rebindingTime
                            && lease.leaseTime == m.leaseTime)
      && e.client.timerT1 == Some(now + lease.renewalTime) && e.client.timerT2 == Some(now + lease.rebindTime)
      && e.client.leaseTimer == Some(now + lease.leaseTime) && e.client.timerTo == None
      && e.client.address == lease.ip && SameClient(c, e.client)
  {
  }

  /** The messages a client takes notice of. */
  predicate Notices(c: Client, m: Message) {
    && Heard(c, m)
    && ((c.state == Selecting && m.kind == Offer)
        || (c.state in {Requesting, Rebooting, Renewing, Rebinding} && (m.kind == Ack || m.kind == Nak)))
  }

  /** All others are dropped; only before its first start a client takes them for an error. */
  lemma OthersAreDropped(c: Client, m: Message, nextXid: nat, now: real)
    requires !Notices(c, m)
    ensures var e := HandleMessage(c, m, nextXid, now);
      && e.client == c && e.sent == None
      && (e.error != NoError <==> Heard(c, m) && (c.state == Idle || c.state == InitReboot))
  {
  }

  /** A node that is down does nothing when a timer goes off. */
  lemma DownIsQuiet(c: Client, kind: TimerType, nextXid: nat, now: real)
    requires !c.operational
    ensures var e := HandleTimerOf(c, kind, nextXid, now); e.client == c && e.sent == None && e.error == NoError
  {
  }

  /** A node that goes up waits for its start time, and one that goes down keeps its lease and forgets all timers. */
  lemma NodeGoesUpAndDown(c: Client, start: real)
    ensures var up := Started(c, start);
      && up.operational && Pending(up, StartDhcp) == Some(start)
      && up == c.(operational := true, startTimer := Some(start))
    ensures var down := Stopped(c);
      && !down.operational && down.lease == c.lease && down.address == c.address && down.state == c.state
      && down.mac == c.mac && down.xid == c.xid && forall kind :: Pending(down, kind) == None
  {
  }

  /** A response is waited for at most a minute. */
  predicate WaitsAMinute(c: Client, now: real) {
    c.timerTo.Some? ==> c.timerTo.value <= now + 60.0
  }

  /** Whichever timer of a started client goes off, the client sends a message. */
  lemma TimerSpeaks(c: Client, kind: TimerType, nextXid: nat, now: real)
    requires c.operational && TimersMatch(c) && LeaseRecorded(c) && OnTime(c, now) && Due(c, kind, now)
    ensures HandleTimerOf(Fired(c, kind), kind, nextXid, now).sent.Some?
  {
    assert Pending(c, T1) == c.timerT1 && Pending(c, T2) == c.timerT2;
  }

  lemma EventWaitsAMinute(sys: N.System, e: N.Event)
    requires N.Enabled(sys, e) && !e.Pass? && !e.ToServer?
    requires WaitsAMinute(sys.clients[e.i], sys.now)
    ensures WaitsAMinute(N.EffectOf(sys, e).client, sys.now)
  {
  }

  ghost predicate AllWaitAMinute(sys: N.System) {
    forall i | 0 <= i < |sys.clients| :: WaitsAMinute(sys.clients[i], sys.now)
  }

  lemma {:induction false} RunWaitsAMinute(sys: N.System, run: seq<N.Event>)
    requires N.Possible(sys, run) && AllWaitAMinute(sys)
    ensures AllWaitAMinute(N.After(sys, run))
    decreases |run|
  {
    if run != [] {
      var e, next := run[0], N.Apply(sys, run[0]);
      if !e.Pass? && !e.ToServer? {
        EventWaitsAMinute(sys, e);
        hide WaitsAMinute, N.EffectOf, N.Enabled;
        assert AllWaitAMinute(next);
      }
      RunWaitsAMinute(next, run[1..]);
    }
  }

  /** Nobody falls silent, whatever the network loses.  At the end of any run that binds no waiting client, time
      cannot pass by a client that has passed START_DHCP for more than a minute, or while it is bound for longer
      than its renewal time allows, before one of its timers goes off, and whichever does, the client sends a
      message. */
  lemma NobodyFallsSilent(sys: N.System, run: seq<N.Event>, i: nat, until: real)
    requires N.AtStart(sys) && N.Proper(sys.cfg) && N.Possible(sys, run) && N.NobodyBoundEarly(sys, run)
    requires i < |sys.clients|
    requires var c := N.After(sys, run).clients[i]; c.operational && c.startTimer.None?
    ensures var end := N.After(sys, run);
      var c := end.clients[i];
      && (N.Enabled(end, N.Pass(until)) ==>
            if c.state == Bound then c.timerT1.Some? && until <= c.timerT1.value else until <= end.now + 60.0)
      && (forall kind, xid: nat | Due(c, kind, end.now) ::
            HandleTimerOf(Fired(c, kind), kind, xid, end.now).sent.Some?)
  {
    StartIsInTime(sys);
    hide *;
    N.NobodyBoundIsClean(sys, run);
    N.RunIsInTime(sys, run);
    RunWaitsAMinute(sys, run);
    var end := N.After(sys, run);
    var c := end.clients[i];
    AllIsInTime(end, i);
    forall kind, xid: nat | Due(c, kind, end.now)
      ensures HandleTimerOf(Fired(c, kind), kind, xid, end.now).sent.Some?
    {
      OrderlyIsMatched(c);
      TimerSpeaks(c, kind, xid, end.now);
    }
    if N.Enabled(end, N.Pass(until)) {
      PassIsOnTime(end, i, until);
      TimeIsLimited(c, end.now, until);
    }
  }

  lemma StartIsInTime(sys: N.System)
    requires N.AtStart(sys)
    ensures N.Safe(sys) && N.InTime(sys) && N.WaitingClean(sys) && AllWaitAMinute(sys)
  {
  }

  lemma AllIsInTime(sys: N.System, i: nat)
    requires i < |sys.clients| && N.InTime(sys) && AllWaitAMinute(sys)
    ensures var c := sys.clients[i]; Orderly(c) && OnTime(c, sys.now) && WaitsAMinute(c, sys.now)
  {
  }

  lemma PassIsOnTime(sys: N.System, i: nat, until: real)
    requires i < |sys.clients| && N.Enabled(sys, N.Pass(until))
    ensures OnTime(sys.clients[i], until)
  {
  }

  lemma OrderlyIsMatched(c: Client)
    requires Orderly(c) && c.operational && c.startTimer.None?
    ensures TimersMatch(c) && LeaseRecorded(c)
  {
  }

  /** How long a started client can let time pass. */
  lemma TimeIsLimited(c: Client, now: real, until: real)
    requires Orderly(c) && c.operational && c.startTimer.None? && WaitsAMinute(c, now) && OnTime(c, until)
    ensures if c.state == Bound then c.timerT1.Some? && until <= c.timerT1.value else until <= now + 60.0
  {
    assert Pending(c, T1) == c.timerT1;
    assert c.state != Bound ==> Pending(c, c.awaits) == c.timerTo;
  }
}
