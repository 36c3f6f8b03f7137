/** The exchanges of RFC 2131 between a client and the server: what they achieve when the messages of
    both arrive. */
module DhcpExchanges {
  import opened DhcpMessages
  import S = DhcpServers
  import C = DhcpClients
  import opened Sequences

  /** What a REQUEST fills in, state by state (Table 4 of section 4.3.6 of RFC 2131). */
  predicate FilledIn(c: C.Client, m: Message) {
    m.kind == Request && c.lease.Some? ==>
      match c.state
      case Requesting => m.serverId == c.lease.value.serverId && m.requestedIp == c.lease.value.ip && m.ciaddr == 0
      case Rebooting => m.serverId == 0 && m.requestedIp == c.lease.value.ip && m.ciaddr == 0
      case Renewing => m.serverId == 0 && m.requestedIp == 0 && m.ciaddr == c.lease.value.ip
      case Rebinding => m.serverId == 0 && m.requestedIp == 0 && m.ciaddr == c.lease.value.ip
      case _ => false
  }

  lemma RequestsAreFilledIn(c: C.Client, m: Message, kind: C.TimerType, nextXid: nat, now: real)
    ensures var e := C.HandleMessage(c, m, nextXid, now); e.sent.Some? ==> FilledIn(e.client, e.sent.value)
    ensures var e := C.HandleTimerOf(c, kind, nextXid, now); e.sent.Some? ==> FilledIn(e.client, e.sent.value)
  {
  }

  /** A client's configuration changes only so: an acknowledgement of its request configures the recorded
      address, a refusal while renewing or rebinding removes it. */
  lemma ConfiguredExactly(c: C.Client, m: Message, nextXid: nat, now: real)
    ensures var e := C.HandleMessage(c, m, nextXid, now);
      var heard := c.operational && m.op == BootReply && m.xid == c.xid;
      && (e.client.state == C.Bound && c.state != C.Bound <==>
            heard && m.kind == Ack && c.lease.Some? && c.state in {C.Requesting, C.Rebooting, C.Renewing, C.Rebinding})
      && (e.client.state == C.Bound && c.state != C.Bound ==> e.client.address == c.lease.value.ip)
      && (heard && m.kind == Nak && c.state in {C.Renewing, C.Rebinding} ==>
            e.client.address == 0 && e.client.state == C.Selecting)
      && (!(heard && (m.kind == Ack || m.kind == Nak)) ==> e.client.address == c.address)
  {
  }

  /** A bound client with the times of the server, counted from `now`. */
  predicate BoundAt(cfg: S.Settings, c: C.Client, ip: Address, now: real) {
    && c.state == C.Bound && c.address == ip && c.lease.Some? && c.lease.value.ip == ip
    && c.timerT1 == Some(now + cfg.leaseTime as real * 0.5)
    && c.timerT2 == Some(now + cfg.leaseTime as real * 0.875)
    && c.leaseTimer == Some(now + cfg.leaseTime as real) && c.timerTo == None
  }

  /** The four messages of a new configuration. */
  lemma NewLeaseBinds(cfg: S.Settings, leased: S.Table, c: C.Client, x: nat, y: nat, z: nat, now: real)
    requires S.TableOk(cfg, leased) && 0 !in cfg.Pool(cfg.maxNumOfClients) && c.operational
    requires S.LeaseOf(leased, c.mac).Some? || S.FreeInPool(cfg, leased, 0).Some?
    ensures var discover := C.InitClientOf(c, x, now);
      var offer := S.Process(cfg, leased, discover.sent.value, now);
      && offer.reply.Some?
      && var request := C.HandleMessage(discover.client, offer.reply.value, y, now);
      && request.sent.Some?
      && var ack := S.Process(cfg, offer.leased, request.sent.value, now);
      && ack.reply.Some?
      && var bound := C.HandleMessage(request.client, ack.reply.value, z, now);
      && bound.error == C.NoError && BoundAt(cfg, bound.client, offer.reply.value.yiaddr, now)
      && S.LeaseOf(ack.leased, c.mac) == Some(bound.client.address)
      && (S.LeaseOf(leased, c.mac).Some? ==> S.LeaseOf(leased, c.mac) == Some(bound.client.address))
  {
    var discover := C.InitClientOf(c, x, now);
    OfferIsMade(cfg, leased, c, x, now);
    var offer := S.Process(cfg, leased, discover.sent.value, now);
    S.ProcessKeepsTable(cfg, leased, discover.sent.value, now);
    OfferIsAccepted(cfg, offer.leased, discover.client, offer.reply.value, y, z, now);
    OnlyLease(cfg, leased, offer.leased, c.mac, offer.reply.value.yiaddr);
  }

  /** A DISCOVER is answered by an offer of an address leased to the client. */
  lemma OfferIsMade(cfg: S.Settings, leased: S.Table, c: C.Client, x: nat, now: real)
    requires S.TableOk(cfg, leased) && 0 !in cfg.Pool(cfg.maxNumOfClients) && c.operational
    requires S.LeaseOf(leased, c.mac).Some? || S.FreeInPool(cfg, leased, 0).Some?
    ensures var a := S.Process(cfg, leased, C.InitClientOf(c, x, now).sent.value, now);
      && a.reply.Some? && a.reply.value.op == BootReply && a.reply.value.kind == Offer && a.reply.value.xid == x
      && a.reply.value.yiaddr in a.leased && a.leased[a.reply.value.yiaddr].mac == c.mac
      && a.reply.value.yiaddr != 0 && a.reply.value.serverId == cfg.address
  {
    S.FreeIsInPool(cfg, leased, 0);
  }

  lemma OnlyLease(cfg: S.Settings, leased: S.Table, after: S.Table, mac: Mac, ip: Address)
    requires S.OneLeasePerMac(after) && S.Keeps(leased, after) && ip in after && after[ip].mac == mac
    ensures S.LeaseOf(after, mac) == Some(ip)
    ensures S.LeaseOf(leased, mac).Some? ==> S.LeaseOf(leased, mac) == Some(ip)
  {
  }

  /** An offer is taken, requested and acknowledged. */
  lemma OfferIsAccepted(cfg: S.Settings, leased: S.Table, c: C.Client, offer: Message, y: nat, z: nat, now: real)
    requires S.TableOk(cfg, leased) && c.operational && c.state == C.Selecting
    requires offer.op == BootReply && offer.kind == Offer && offer.xid == c.xid
    requires offer.yiaddr in leased && leased[offer.yiaddr].mac == c.mac && offer.yiaddr != 0
    requires offer.serverId == cfg.address
    ensures var request := C.HandleMessage(c, offer, y, now);
      && request.sent.Some?
      && var ack := S.Process(cfg, leased, request.sent.value, now);
      && ack.reply.Some?
      && var bound := C.HandleMessage(request.client, ack.reply.value, z, now);
      && bound.error == C.NoError && BoundAt(cfg, bound.client, offer.yiaddr, now)
      && S.LeaseOf(ack.leased, c.mac) == Some(offer.yiaddr)
  {
    OnlyLease(cfg, leased, leased, c.mac, offer.yiaddr);
    var request := C.HandleMessage(c, offer, y, now).sent.value;
    assert S.Decide(cfg, leased, request) == S.Grant(offer.yiaddr);
    S.RequestKeepsTable(cfg, leased, request, now);
    OnlyLease(cfg, leased, S.Process(cfg, leased, request, now).leased, c.mac, offer.yiaddr);
  }

  lemma SameAddressSameNet(a: Address, mask: Address)
    ensures S.SameNet(a, a, mask)
  {
    var x := a as bv32;
    assert x ^ x == 0;
  }

  /** Extending a known lease: renewing when T1 goes off, rebinding when T2 does, and rebooting with a
      lease at the start.  The request is acknowledged and the lease runs anew. */
  lemma KnownLeaseIsExtended(cfg: S.Settings, leased: S.Table, c: C.Client, kind: C.TimerType,
                             y: nat, z: nat, now: real)
    requires S.TableOk(cfg, leased) && cfg.address != 0 && c.operational
    requires kind in {C.T1, C.T2, C.StartDhcp} && (kind == C.T2 ==> c.state == C.Renewing)
    requires c.lease.Some? && c.lease.value.ip in leased && c.lease.value.ip != 0
    ensures var request := C.HandleTimerOf(c, kind, y, now);
      && request.sent.Some?
      && var ack := S.Process(cfg, leased, request.sent.value, now);
      && ack.reply.Some?
      && var bound := C.HandleMessage(request.client, ack.reply.value, z, now);
      && bound.error == C.NoError && BoundAt(cfg, bound.client, c.lease.value.ip, now)
      && ack.leased.Keys == leased.Keys
  {
    SameAddressSameNet(c.lease.value.ip, cfg.subnetMask);
    var request := C.HandleTimerOf(c, kind, y, now).sent.value;
    hide S.SameNet, BoundAt;
    assert S.Decide(cfg, leased, request) == S.Grant(c.lease.value.ip);
    var next := C.HandleTimerOf(c, kind, y, now).client;
    AckBinds(cfg, next, S.Process(cfg, leased, request, now).reply.value, z, now);
  }

  /** An acknowledgement with the times of the server binds a client that waits for one. */
  lemma AckBinds(cfg: S.Settings, c: C.Client, ack: Message, z: nat, now: real)
    requires c.operational && c.lease.Some? && c.state in {C.Requesting, C.Rebooting, C.Renewing, C.Rebinding}
    requires ack.op == BootReply && ack.kind == Ack && ack.xid == c.xid && ack.yiaddr != 0
    requires ack.leaseTime == cfg.leaseTime as real
    requires ack.renewalTime == cfg.leaseTime as real * 0.5 && ack.rebindingTime == cfg.leaseTime as real * 0.875
    ensures var bound := C.HandleMessage(c, ack, z, now);
      bound.error == C.NoError && BoundAt(cfg, bound.client, c.lease.value.ip, now)
  {
  }

  /** A client that asks for an address the server does not know is sent back to the start, except at a
      reboot, when the server stays silent. */
  lemma UnknownLeaseIsRefused(cfg: S.Settings, leased: S.Table, c: C.Client, kind: C.TimerType,
                              y: nat, z: nat, now: real)
    requires cfg.address != 0 && c.operational
    requires kind in {C.T1, C.T2, C.StartDhcp} && (kind == C.T2 ==> c.state == C.Renewing)
    requires c.lease.Some? && c.lease.value.ip !in leased && c.lease.value.ip != 0
    ensures var request := C.HandleTimerOf(c, kind, y, now);
      && request.sent.Some?
      && var answer := S.Process(cfg, leased, request.sent.value, now);
      && answer.leased == leased
      && (kind == C.StartDhcp ==> answer.reply.None?)
      && (kind != C.StartDhcp ==>
            && answer.reply.Some?
            && var next := C.HandleMessage(request.client, answer.reply.value, z, now);
               next.client.state == C.Selecting && next.client.address == 0
               && next.sent == Some(Plain(BootRequest, Discover, z, c.mac)))
  {
  }
}
