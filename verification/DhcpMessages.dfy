/** Addresses and messages of the Dynamic Host Configuration Protocol (RFC 2131). */
module DhcpMessages {

  /** An IPv4 address; 0 is the unspecified one. */
  type Address = a: int | 0 <= a < 0x1_0000_0000

  type Mac = nat

  datatype Op = BootRequest | BootReply

  datatype MessageType = Discover | Offer | Request | Decline | Ack | Nak | Release | Inform

  datatype Message = Message(op: Op, kind: MessageType, xid: nat, chaddr: Mac, ciaddr: Address, yiaddr: Address,
                             requestedIp: Address, serverId: Address,
                             renewalTime: real, rebindingTime: real, leaseTime: real)

  /** A message with nothing but its header filled in. */
  function Plain(op: Op, kind: MessageType, xid: nat, chaddr: Mac): Message {
    Message(op, kind, xid, chaddr, 0, 0, 0, 0, 0.0, 0.0, 0.0)
  }
}
