/** What the DHCP server answers to every message: the conditions on the message and the table alone, the fields of
    the reply, and what becomes of the table. */
module DhcpAnswers {
  import opened DhcpMessages
  import opened DhcpServers
  import opened Sequences

  /** Every record is kept under its own address. */
  ghost predicate Own(leased: Table) {
    forall ip | ip in leased :: leased[ip].ip == ip
  }

  /** The k-th address behind the configured first one is leased. */
  ghost predicate Taken(cfg: Settings, leased: Table, k: nat) {
    var ip := (cfg.ipAddressStart + k) % 0x1_0000_0000;
    ip in leased && leased[ip].leased
  }

  ghost predicate LowestFree(cfg: Settings, leased: Table, k: nat) {
    k < cfg.maxNumOfClients && !Taken(cfg, leased, k) && forall j: nat | j < k :: Taken(cfg, leased, j)
  }

  /** A reply that tells what the record says, with the times of the settings. */
  ghost predicate Tells(cfg: Settings, record: Lease, m: Message, reply: Message) {
    && reply.op == BootReply && reply.xid == m.xid && reply.chaddr == record.mac && reply.yiaddr == record.ip
    && reply.serverId == cfg.address && reply.requestedIp == 0
    && reply.leaseTime == cfg.leaseTime as real
    && reply.renewalTime == cfg.leaseTime as real / 2.0 && reply.rebindingTime == cfg.leaseTime as real * 7.0 / 8.0
  }

  /** The table is the old one but for the record of `ip`. */
  ghost predicate OnlyChanged(before: Table, after: Table, ip: Address, record: Lease) {
    && after.Keys == before.Keys + {ip} && after[ip] == record
    && forall jp | jp in before && jp != ip :: after[jp] == before[jp]
  }

  /** An offer of `ip`, which is leased to the client from now on. */
  ghost predicate Offers(cfg: Settings, leased: Table, m: Message, now: real, a: Answer, ip: Address) {
    && a.reply.Some? && a.reply.value.kind == Offer && a.reply.value.ciaddr == 0
    && Tells(cfg, Lease(m.xid, ip, m.chaddr, true, now), m, a.reply.value)
    && OnlyChanged(leased, a.leased, ip, Lease(m.xid, ip, m.chaddr, true, now))
  }

  /** An acknowledgement of the record of `ip`, whose lease begins anew. */
  ghost predicate Acknowledges(cfg: Settings, leased: Table, m: Message, now: real, a: Answer, ip: Address) {
    && ip in leased && a.reply.Some? && a.reply.value.kind == Ack && a.reply.value.ciaddr == leased[ip].ip
    && Tells(cfg, leased[ip], m, a.reply.value)
    && OnlyChanged(leased, a.leased, ip, Lease(m.xid, leased[ip].ip, leased[ip].mac, true, now))
  }

  /** A refusal to the client that asked. */
  ghost predicate Refuses(cfg: Settings, leased: Table, m: Message, a: Answer) {
    && a.leased == leased && a.reply.Some?
    && a.reply.value == Message(BootReply, Nak, m.xid, m.chaddr, 0, 0, 0, cfg.address, 0.0, 0.0, 0.0)
  }

  ghost predicate StaysSilent(leased: Table, a: Answer) {
    a.leased == leased && a.reply == None
  }

  lemma {:induction false} FreeFrom(cfg: Settings, leased: Table, i: nat, k: nat)
    requires i <= k && LowestFree(cfg, leased, k)
    ensures FreeInPool(cfg, leased, i) == Some((cfg.ipAddressStart + k) % 0x1_0000_0000)
    decreases k - i
  {
    if i < k {
      assert Taken(cfg, leased, i);
      FreeFrom(cfg, leased, i + 1, k);
    }
  }

  lemma {:induction false} NoneFree(cfg: Settings, leased: Table, i: nat)
    requires i <= cfg.maxNumOfClients && forall k: nat | k < cfg.maxNumOfClients :: Taken(cfg, leased, k)
    ensures FreeInPool(cfg, leased, i) == None
    decreases cfg.maxNumOfClients - i
  {
    if i < cfg.maxNumOfClients {
      assert Taken(cfg, leased, i);
      NoneFree(cfg, leased, i + 1);
    }
  }

  /** The address to lease next is the named one, or the first one, counted from the configured start, that is not
      leased. */
  lemma AvailableIsLowest(cfg: Settings, leased: Table, requested: Address, k: nat)
    requires Own(leased)
    ensures var r := Available(cfg, leased, requested);
      && (requested != 0 ==> r.Some? && r.value.0 == requested)
      && (requested == 0 && LowestFree(cfg, leased, k) ==>
            r.Some? && r.value.0 == (cfg.ipAddressStart + k) % 0x1_0000_0000)
      && (requested == 0 && (forall j: nat | j < cfg.maxNumOfClients :: Taken(cfg, leased, j)) ==> r.None?)
      && (r.Some? ==>
            var (ip, table) := r.value;
            && table.Keys == leased.Keys + {ip} && Own(table)
            && (if ip in leased && !leased[ip].leased then table[ip] == leased[ip] else !table[ip].leased)
            && forall jp | jp in leased && jp != ip :: table[jp] == leased[jp])
  {
    if requested == 0 {
      FreeIsInPool(cfg, leased, 0);
      if LowestFree(cfg, leased, k) {
        FreeFrom(cfg, leased, 0, k);
      }
      if forall j: nat | j < cfg.maxNumOfClients :: Taken(cfg, leased, j) {
        NoneFree(cfg, leased, 0);
      }
    }
  }

  /** A client the server does not know and that names no address is offered the lowest free one, and nothing when
      the pool is leased out. */
  lemma NewClientGetsLowest(cfg: Settings, leased: Table, m: Message, now: real, k: nat)
    requires Own(leased) && m.op == BootRequest && m.kind == Discover && m.requestedIp == 0
    requires forall ip | ip in leased :: leased[ip].mac != m.chaddr
    ensures var a := Process(cfg, leased, m, now);
      && (LowestFree(cfg, leased, k) ==>
            Offers(cfg, leased, m, now, a, (cfg.ipAddressStart + k) % 0x1_0000_0000))
      && ((forall j: nat | j < cfg.maxNumOfClients :: Taken(cfg, leased, j)) ==> StaysSilent(leased, a))
  {
    AvailableIsLowest(cfg, leased, 0, k);
    hide Available;
  }

  /** There is a lowest free address unless the pool is leased out. */
  lemma LowestFreeExists(cfg: Settings, leased: Table)
    ensures (exists k: nat :: LowestFree(cfg, leased, k)) <==>
            !(forall j: nat | j < cfg.maxNumOfClients :: Taken(cfg, leased, j))
  {
    if j: nat :| j < cfg.maxNumOfClients && !Taken(cfg, leased, j) {
      var k := 0;
      while Taken(cfg, leased, k)
        invariant k <= j && forall i: nat | i < k :: Taken(cfg, leased, i)
        decreases j - k
      {
        k := k + 1;
      }
      assert LowestFree(cfg, leased, k);
    }
  }

  /** The first client is offered the configured first address. */
  lemma FirstClientGetsStart(cfg: Settings, m: Message, now: real)
    requires m.op == BootRequest && m.kind == Discover && m.requestedIp == 0 && 0 < cfg.maxNumOfClients
    ensures Offers(cfg, map[], m, now, Process(cfg, map[], m, now), cfg.ipAddressStart)
  {
    assert LowestFree(cfg, map[], 0);
    NewClientGetsLowest(cfg, map[], m, now, 0);
  }

  /** A client the server does not know is offered the address it names. */
  lemma NamedAddressIsOffered(cfg: Settings, leased: Table, m: Message, now: real)
    requires Own(leased) && m.op == BootRequest && m.kind == Discover && m.requestedIp != 0
    requires forall ip | ip in leased :: leased[ip].mac != m.chaddr
    ensures Offers(cfg, leased, m, now, Process(cfg, leased, m, now), m.requestedIp)
  {
  }

  /** A client the server knows is offered its own address again, whatever it names. */
  lemma KnownClientGetsItsLease(cfg: Settings, leased: Table, m: Message, now: real, ip: Address)
    requires OneLeasePerMac(leased) && Own(leased) && m.op == BootRequest && m.kind == Discover
    requires ip in leased && leased[ip].mac == m.chaddr && leased[ip].leased
    ensures Offers(cfg, leased, m, now, Process(cfg, leased, m, now), ip)
  {
  }

  /** The addresses are alike in all bits of the mask. */
  predicate MaskedAlike(a: Address, b: Address, mask: Address) {
    AlikeUnder(a as bv32, b as bv32, mask as bv32)
  }

  predicate AlikeUnder(a: bv32, b: bv32, mask: bv32) {
    a & mask == b & mask
  }

  lemma DifferenceUnder(a: bv32, b: bv32, mask: bv32)
    ensures NoneDiffers(a, b, mask) <==> AlikeUnder(a, b, mask)
  {
    MaskedXor(a, b, mask);
  }

  lemma MaskedXor(a: bv32, b: bv32, mask: bv32)
    ensures (a ^ b) & mask == 0 <==> a & mask == b & mask
  {
  }

  lemma SameNetIsMaskedAlike(a: Address, b: Address, mask: Address)
    ensures SameNet(a, b, mask) <==> MaskedAlike(a, b, mask)
  {
    hide NoneDiffers, AlikeUnder;
    DifferenceUnder(a as bv32, b as bv32, mask as bv32);
  }

  /** A REQUEST that names this server is acknowledged exactly when the client's lease is for the address it requests,
      and refused otherwise. */
  lemma NamedServerAnswers(cfg: Settings, leased: Table, m: Message, now: real)
    requires OneLeasePerMac(leased) && m.op == BootRequest && m.kind == Request && m.serverId == cfg.address
    ensures var a := Process(cfg, leased, m, now);
      && (forall ip | ip in leased && leased[ip].mac == m.chaddr && leased[ip].ip == m.requestedIp ::
            Acknowledges(cfg, leased, m, now, a, ip))
      && ((forall ip | ip in leased && leased[ip].mac == m.chaddr :: leased[ip].ip != m.requestedIp) ==>
            Refuses(cfg, leased, m, a))
  {
  }

  /** Every other REQUEST without a client address asks for the address it names: known and on the network, it is
      acknowledged, known and on another network it is refused, and unknown it gets no answer.  A record under its own
      address is always on the network. */
  lemma RebootIsAnswered(cfg: Settings, leased: Table, m: Message, now: real)
    requires m.op == BootRequest && m.kind == Request && m.serverId != cfg.address && m.ciaddr == 0
    ensures var a := Process(cfg, leased, m, now);
      && (m.requestedIp !in leased ==> StaysSilent(leased, a))
      && (m.requestedIp in leased && MaskedAlike(m.requestedIp, leased[m.requestedIp].ip, cfg.subnetMask) ==>
            Acknowledges(cfg, leased, m, now, a, m.requestedIp))
      && (m.requestedIp in leased && leased[m.requestedIp].ip == m.requestedIp ==>
            Acknowledges(cfg, leased, m, now, a, m.requestedIp))
      && (m.requestedIp in leased && !MaskedAlike(m.requestedIp, leased[m.requestedIp].ip, cfg.subnetMask) ==>
            Refuses(cfg, leased, m, a))
  {
    if m.requestedIp in leased {
      SameNetIsMaskedAlike(m.requestedIp, leased[m.requestedIp].ip, cfg.subnetMask);
    }
    hide SameNet, MaskedAlike;
  }

  /** A REQUEST with a client address extends the lease of that address exactly when there is one, whoever asks. */
  lemma ExtensionIsAnswered(cfg: Settings, leased: Table, m: Message, now: real)
    requires m.op == BootRequest && m.kind == Request && m.serverId != cfg.address && m.ciaddr != 0
    ensures var a := Process(cfg, leased, m, now);
      && (m.ciaddr in leased ==> Acknowledges(cfg, leased, m, now, a, m.ciaddr))
      && (m.ciaddr !in leased ==> Refuses(cfg, leased, m, a))
  {
  }

  /** All other messages are dropped. */
  lemma OthersAreDropped(cfg: Settings, leased: Table, m: Message, now: real)
    requires m.op != BootRequest || (m.kind != Discover && m.kind != Request)
    ensures StaysSilent(leased, Process(cfg, leased, m, now))
  {
  }

  /** Any message, also a DISCOVER that names an address, leaves one lease per MAC and every record under its own
      address. */
  lemma AnyMessageKeepsOwn(cfg: Settings, leased: Table, m: Message, now: real)
    requires OneLeasePerMac(leased) && Own(leased)
    ensures var a := Process(cfg, leased, m, now); OneLeasePerMac(a.leased) && Own(a.leased)
  {
    AvailableIsLowest(cfg, leased, m.requestedIp, 0);
    hide Available, SameNet;
  }
}
