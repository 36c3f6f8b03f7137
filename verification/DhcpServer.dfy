/** The DHCP server: its lease table and what it answers. */
module DhcpServers {
  import opened DhcpMessages
  import opened Sequences

  datatype Lease = Lease(xid: nat, ip: Address, mac: Mac, leased: bool, time: real)

  type Table = map<Address, Lease>

  datatype Settings = Settings(address: Address, ipAddressStart: Address, maxNumOfClients: Address,
                               leaseTime: Address, subnetMask: Address)
  {
    /** The i-th address of the pool, in 32-bit arithmetic. */
    function PoolAddress(i: nat): Address {
      (ipAddressStart + i) % 0x1_0000_0000
    }

    ghost function Pool(n: nat): (pool: set<Address>)
    {
      set i: nat | i < n :: PoolAddress(i)
    }
  }

  function NewLease(ip: Address): Lease {
    Lease(0, ip, 0, false, 0.0)
  }

  function OfferOf(cfg: Settings, lease: Lease): Message {
    Plain(BootReply, Offer, lease.xid, lease.mac).(
      yiaddr := lease.ip, serverId := cfg.address,
      renewalTime := cfg.leaseTime as real * 0.5, rebindingTime := cfg.leaseTime as real * 0.875,
      leaseTime := cfg.leaseTime as real)
  }

  function AckOf(cfg: Settings, lease: Lease): Message {
    OfferOf(cfg, lease).(kind := Ack, ciaddr := lease.ip)
  }

  function NakOf(cfg: Settings, m: Message): Message {
    Plain(BootReply, Nak, m.xid, m.chaddr).(serverId := cfg.address)
  }

  /** maskedAddrAreEqual. */
  predicate SameNet(a: Address, b: Address, mask: Address) {
    NoneDiffers(a as bv32, b as bv32, mask as bv32)
  }

  predicate NoneDiffers(a: bv32, b: bv32, mask: bv32) {
    (a ^ b) & mask == 0
  }

  /** The address leased to a MAC, if any. */
  ghost function LeaseOf(leased: Table, mac: Mac): (r: Option<Address>)
    ensures r.Some? ==> r.value in leased && leased[r.value].mac == mac
    ensures r.None? ==> forall ip | ip in leased :: leased[ip].mac != mac
  {
    if exists ip | ip in leased :: leased[ip].mac == mac then
      var ip :| ip in leased && leased[ip].mac == mac;
      Some(ip)
    else None
  }

  ghost predicate OneLeasePerMac(leased: Table) {
    forall ip, jp | ip in leased && jp in leased && leased[ip].mac == leased[jp].mac :: ip == jp
  }

  /** The first address of the pool from the i-th on that is not leased. */
  function FreeInPool(cfg: Settings, leased: Table, i: nat): (r: Option<Address>)
    requires i <= cfg.maxNumOfClients
    decreases cfg.maxNumOfClients - i
  {
    if i == cfg.maxNumOfClients then None
    else
      var ip := cfg.PoolAddress(i);
      if ip in leased && leased[ip].leased then FreeInPool(cfg, leased, i + 1) else Some(ip)
  }

  /** The address to lease next, and the table with a record for it. */
  function Available(cfg: Settings, leased: Table, requested: Address): (r: Option<(Address, Table)>)
    ensures r.Some? ==> r.value.0 in r.value.1
  {
    if requested != 0 then
      Some((requested,
            if requested in leased && !leased[requested].leased then leased
            else leased[requested := NewLease(requested)]))
    else
      match FreeInPool(cfg, leased, 0)
      case None => None
      case Some(ip) => Some((ip, if ip in leased then leased else leased[ip := NewLease(ip)]))
  }

  datatype Answer = Answer(leased: Table, reply: Option<Message>)

  function Offered(cfg: Settings, leased: Table, ip: Address, now: real): Answer
    requires ip in leased
  {
    Answer(leased[ip := leased[ip].(time := now)], Some(OfferOf(cfg, leased[ip])))
  }

  ghost function OnDiscover(cfg: Settings, leased: Table, m: Message, now: real): Answer {
    match LeaseOf(leased, m.chaddr)
    case Some(ip) => Offered(cfg, leased[ip := leased[ip].(xid := m.xid)], ip, now)
    case None =>
      match Available(cfg, leased, m.requestedIp)
      case None => Answer(leased, None)
      case Some((ip, table)) =>
        Offered(cfg, table[ip := table[ip].(mac := m.chaddr, xid := m.xid, leased := true)], ip, now)
  }

  function Granted(cfg: Settings, leased: Table, ip: Address, m: Message, now: real): Answer
    requires ip in leased
  {
    var lease := leased[ip].(xid := m.xid, leased := true);
    Answer(leased[ip := lease.(time := now)], Some(AckOf(cfg, lease)))
  }

  datatype Decision = Ignore | Refuse | Grant(ip: Address)

  /** What to do with a REQUEST: answering an offer (the server is named), rebooting with a known address
      (no client address), or renewing and rebinding. */
  ghost function Decide(cfg: Settings, leased: Table, m: Message): (r: Decision)
    ensures r.Grant? ==> r.ip in leased
  {
    if m.serverId == cfg.address then
      match LeaseOf(leased, m.chaddr)
      case None => Refuse
      case Some(ip) => if leased[ip].ip != m.requestedIp then Refuse else Grant(ip)
    else if m.ciaddr == 0 then
      if m.requestedIp !in leased then Ignore
      else if SameNet(m.requestedIp, leased[m.requestedIp].ip, cfg.subnetMask) then Grant(m.requestedIp)
      else Refuse
    else if m.ciaddr in leased then Grant(m.ciaddr)
    else Refuse
  }

  ghost function OnRequest(cfg: Settings, leased: Table, m: Message, now: real): Answer {
    match Decide(cfg, leased, m)
    case Ignore => Answer(leased, None)
    case Refuse => Answer(leased, Some(NakOf(cfg, m)))
    case Grant(ip) => Granted(cfg, leased, ip, m, now)
  }

  /** processDHCPMessage. */
  ghost function Process(cfg: Settings, leased: Table, m: Message, now: real): Answer {
    if m.op == BootRequest && m.kind == Discover then OnDiscover(cfg, leased, m, now)
    else if m.op == BootRequest && m.kind == Request then OnRequest(cfg, leased, m, now)
    else Answer(leased, None)
  }

  /** The table of a server whose clients leave the choice of the address to it. */
  ghost predicate TableOk(cfg: Settings, leased: Table) {
    && OneLeasePerMac(leased)
    && (forall ip | ip in leased :: leased[ip].ip == ip && leased[ip].leased)
    && leased.Keys <= cfg.Pool(cfg.maxNumOfClients)
  }

  /** No lease is lost or given to another MAC. */
  ghost predicate Keeps(before: Table, after: Table) {
    forall ip | ip in before :: ip in after && after[ip].mac == before[ip].mac
  }

  lemma {:induction false} FreeIsInPool(cfg: Settings, leased: Table, i: nat)
    requires i <= cfg.maxNumOfClients
    ensures FreeInPool(cfg, leased, i).Some? ==>
      var ip := FreeInPool(cfg, leased, i).value;
      ip in cfg.Pool(cfg.maxNumOfClients) && (ip in leased ==> !leased[ip].leased)
    ensures FreeInPool(cfg, leased, i).None? ==>
      forall k: nat | i <= k < cfg.maxNumOfClients ::
        cfg.PoolAddress(k) in leased && leased[cfg.PoolAddress(k)].leased
    decreases cfg.maxNumOfClients - i
  {
    if i < cfg.maxNumOfClients {
      FreeIsInPool(cfg, leased, i + 1);
    }
  }

  lemma RecordingKeeps(cfg: Settings, leased: Table, ip: Address, lease: Lease)
    requires TableOk(cfg, leased) && ip in leased && lease.ip == ip && lease.mac == leased[ip].mac && lease.leased
    ensures TableOk(cfg, leased[ip := lease]) && Keeps(leased, leased[ip := lease])
  {
  }

  lemma RequestKeepsTable(cfg: Settings, leased: Table, m: Message, now: real)
    requires TableOk(cfg, leased)
    ensures var a := OnRequest(cfg, leased, m, now); TableOk(cfg, a.leased) && Keeps(leased, a.leased)
  {
    hide Decide;
    match Decide(cfg, leased, m)
    case Ignore =>
    case Refuse =>
    case Grant(ip) =>
      RecordingKeeps(cfg, leased, ip, leased[ip].(xid := m.xid, leased := true, time := now));
  }

  lemma DiscoverKeepsTable(cfg: Settings, leased: Table, m: Message, now: real)
    requires TableOk(cfg, leased) && m.requestedIp == 0
    ensures var a := OnDiscover(cfg, leased, m, now); TableOk(cfg, a.leased) && Keeps(leased, a.leased)
  {
    FreeIsInPool(cfg, leased, 0);
    match LeaseOf(leased, m.chaddr)
    case Some(ip) =>
      RecordingKeeps(cfg, leased, ip, leased[ip].(xid := m.xid));
    case None =>
  }

  /** A server keeps every lease with its MAC, one address per MAC and inside the pool; only requests
      that name an address in a DISCOVER are excluded. */
  lemma ProcessKeepsTable(cfg: Settings, leased: Table, m: Message, now: real)
    requires TableOk(cfg, leased) && (m.kind == Discover ==> m.requestedIp == 0)
    ensures var a := Process(cfg, leased, m, now); TableOk(cfg, a.leased) && Keeps(leased, a.leased)
  {
    hide TableOk, OnDiscover, OnRequest;
    RequestKeepsTable(cfg, leased, m, now);
    if m.kind == Discover {
      DiscoverKeepsTable(cfg, leased, m, now);
    }
  }

  /** A reply that tells the truth: an offer or acknowledgement names an address of the table and the MAC
      it is leased to, with the times of the settings; offers and refusals go to the client that asked. */
  ghost predicate TrueReply(cfg: Settings, leased: Table, m: Message, reply: Message) {
    && reply.op == BootReply && reply.xid == m.xid
    && (reply.kind == Offer || reply.kind == Ack || reply.kind == Nak)
    && (reply.kind != Nak ==>
          && reply.yiaddr in leased && leased[reply.yiaddr].mac == reply.chaddr
          && reply.leaseTime == cfg.leaseTime as real
          && reply.renewalTime == cfg.leaseTime as real * 0.5
          && reply.rebindingTime == cfg.leaseTime as real * 0.875)
    && (reply.kind != Ack ==> reply.chaddr == m.chaddr)
  }

  lemma GrantIsTrue(cfg: Settings, leased: Table, ip: Address, m: Message, now: real)
    requires ip in leased && leased[ip].ip == ip
    ensures var a := Granted(cfg, leased, ip, m, now); TrueReply(cfg, a.leased, m, a.reply.value)
  {
  }

  lemma DiscoverIsTrue(cfg: Settings, leased: Table, m: Message, now: real)
    requires TableOk(cfg, leased) && m.requestedIp == 0
    ensures var a := OnDiscover(cfg, leased, m, now); a.reply.Some? ==> TrueReply(cfg, a.leased, m, a.reply.value)
  {
    FreeIsInPool(cfg, leased, 0);
  }

  lemma RepliesAreTrue(cfg: Settings, leased: Table, m: Message, now: real)
    requires TableOk(cfg, leased) && (m.kind == Discover ==> m.requestedIp == 0)
    ensures var a := Process(cfg, leased, m, now); a.reply.Some? ==> TrueReply(cfg, a.leased, m, a.reply.value)
  {
    hide TrueReply, OnDiscover, Decide, Granted;
    if m.kind == Discover {
      DiscoverIsTrue(cfg, leased, m, now);
    } else {
      match Decide(cfg, leased, m)
      case Ignore =>
      case Refuse => RefusalIsTrue(cfg, leased, m);
      case Grant(ip) => GrantIsTrue(cfg, leased, ip, m, now);
    }
  }

  lemma RefusalIsTrue(cfg: Settings, leased: Table, m: Message)
    ensures TrueReply(cfg, leased, m, NakOf(cfg, m))
  {
  }

  lemma {:induction false} PoolIsBounded(cfg: Settings, n: nat)
    ensures |cfg.Pool(n)| <= n
  {
    if n > 0 {
      PoolIsBounded(cfg, n - 1);
      assert cfg.Pool(n) == cfg.Pool(n - 1) + {cfg.PoolAddress(n - 1)};
    }
  }

  /** Never more leases than clients allowed. */
  lemma LeasesAreBounded(cfg: Settings, leased: Table)
    requires TableOk(cfg, leased)
    ensures |leased| <= cfg.maxNumOfClients
  {
    PoolIsBounded(cfg, cfg.maxNumOfClients);
    SubsetIsSmaller(leased.Keys, cfg.Pool(cfg.maxNumOfClients));
    assert |leased| == |leased.Keys|;
  }

  /** When a DISCOVER names an address, some lease changes its MAC exactly when the client is new and the
      address is leased already. */
  lemma NamedDiscoverExactly(cfg: Settings, leased: Table, m: Message, now: real)
    requires TableOk(cfg, leased) && m.op == BootRequest && m.kind == Discover
    ensures Keeps(leased, Process(cfg, leased, m, now).leased) <==>
            LeaseOf(leased, m.chaddr).Some? || m.requestedIp == 0 || m.requestedIp !in leased
  {
    FreeIsInPool(cfg, leased, 0);
  }

  /** A DISCOVER from an unknown MAC is answered unless the whole pool is leased. */
  lemma DiscoverIsAnswered(cfg: Settings, leased: Table, m: Message, now: real)
    requires TableOk(cfg, leased) && m.op == BootRequest && m.kind == Discover && m.requestedIp == 0
    requires LeaseOf(leased, m.chaddr).None?
    ensures Process(cfg, leased, m, now).reply.None? <==> leased.Keys == cfg.Pool(cfg.maxNumOfClients)
  {
    FreeIsInPool(cfg, leased, 0);
    if FreeInPool(cfg, leased, 0).None? {
      forall ip | ip in cfg.Pool(cfg.maxNumOfClients)
        ensures ip in leased
      {
      }
    }
  }

  class DHCPServer {
    const cfg: Settings
    var leased: Table

    constructor (cfg: Settings)
      ensures this.cfg == cfg && leased == map[] && TableOk(cfg, leased)
    {
      this.cfg := cfg;
      leased := map[];
    }

    method GetLeaseByMac(mac: Mac) returns (r: Option<Address>)
      requires OneLeasePerMac(leased)
      ensures r == LeaseOf(leased, mac)
    {
      var rest := leased.Keys;
      while rest != {}
        invariant rest <= leased.Keys
        invariant forall ip | ip in leased && ip !in rest :: leased[ip].mac != mac
        decreases |rest|
      {
        var ip :| ip in rest;
        if leased[ip].mac == mac {
          return Some(ip);
        }
        rest := rest - {ip};
      }
      r := None;
    }

    /** Finds or makes a record that can be leased. */
    method GetAvailableLease(requestedAddress: Address) returns (r: Option<Address>)
      modifies this
      ensures var a := Available(cfg, old(leased), requestedAddress);
        match a
        case None => r == None && leased == old(leased)
        case Some((ip, table)) => r == Some(ip) && leased == table
    {
      if requestedAddress != 0 {
        if requestedAddress in leased && !leased[requestedAddress].leased {
          return Some(requestedAddress);
        }
        leased := leased[requestedAddress := NewLease(requestedAddress)];
        return Some(requestedAddress);
      }
      var i := 0;
      while i < cfg.maxNumOfClients
        invariant 0 <= i <= cfg.maxNumOfClients && leased == old(leased)
        invariant FreeInPool(cfg, leased, i) == FreeInPool(cfg, leased, 0)
      {
        var ip := cfg.PoolAddress(i);
        if ip in leased {
          if !leased[ip].leased {
            return Some(ip);
          }
        } else {
          leased := leased[ip := NewLease(ip)];
          return Some(ip);
        }
        i := i + 1;
      }
      r := None;
    }

    method SendOffer(ip: Address, now: real) returns (offer: Message)
      requires ip in leased
      modifies this
      ensures Answer(leased, Some(offer)) == Offered(cfg, old(leased), ip, now)
    {
      offer := OfferOf(cfg, leased[ip]);
      leased := leased[ip := leased[ip].(time := now)];
    }

    /** Renews the lease and acknowledges it. */
    method Grant(ip: Address, m: Message, now: real) returns (ack: Message)
      requires ip in leased
      modifies this
      ensures Answer(leased, Some(ack)) == Granted(cfg, old(leased), ip, m, now)
    {
      leased := leased[ip := leased[ip].(xid := m.xid, leased := true)];
      ack := AckOf(cfg, leased[ip]);
      leased := leased[ip := leased[ip].(time := now)];
    }

    method ProcessDHCPMessage(m: Message, now: real) returns (reply: Option<Message>)
      requires OneLeasePerMac(leased)
      modifies this
      ensures Answer(leased, reply) == Process(cfg, old(leased), m, now)
      ensures OneLeasePerMac(leased)
    {
      reply := None;
      if m.op == BootRequest {
        if m.kind == Discover {
          reply := HandleDiscover(m, now);
        } else if m.kind == Request {
          reply := HandleRequest(m, now);
        }
      }
    }

    method HandleDiscover(m: Message, now: real) returns (reply: Option<Message>)
      requires OneLeasePerMac(leased)
      modifies this
      ensures Answer(leased, reply) == OnDiscover(cfg, old(leased), m, now)
      ensures OneLeasePerMac(leased)
    {
      var known := GetLeaseByMac(m.chaddr);
      if known == None {
        var free := GetAvailableLease(m.requestedIp);
        if free == None {
          return None;
        }
        var ip := free.value;
        leased := leased[ip := leased[ip].(mac := m.chaddr, xid := m.xid, leased := true)];
        var offer := SendOffer(ip, now);
        reply := Some(offer);
      } else {
        leased := leased[known.value := leased[known.value].(xid := m.xid)];
        var offer := SendOffer(known.value, now);
        reply := Some(offer);
      }
    }

    method HandleRequest(m: Message, now: real) returns (reply: Option<Message>)
      requires OneLeasePerMac(leased)
      modifies this
      ensures Answer(leased, reply) == OnRequest(cfg, old(leased), m, now)
      ensures OneLeasePerMac(leased)
    {
      var granted: Option<Address> := None;
      if m.serverId == cfg.address {
        var known := GetLeaseByMac(m.chaddr);
        if known.Some? && leased[known.value].ip == m.requestedIp {
          granted := known;
        }
      } else if m.ciaddr == 0 {
        if m.requestedIp !in leased {
          return None;
        } else if SameNet(m.requestedIp, leased[m.requestedIp].ip, cfg.subnetMask) {
          granted := Some(m.requestedIp);
        }
      } else if m.ciaddr in leased {
        granted := Some(m.ciaddr);
      }
      if granted == None {
        reply := Some(NakOf(cfg, m));
      } else {
        var ack := Grant(granted.value, m, now);
        reply := Some(ack);
      }
    }
  }
}
