/** The decoded-packet view the analyzer reads, and the event record it keeps per DHCP packet. */
module Records {
  import opened Wrappers

  /** Placeholder for a MAC address or a message type that the packet does not carry. */
  const Unknown: string := "unknown"
  /** Placeholder for an IP option that the packet does not carry. */
  const NoAddress: string := "0.0.0.0"

  /** The link layer fields read from a packet. */
  datatype EthLayer = EthLayer(src: string, dst: string)

  /**
   * The DHCP options read from a packet: Message Type (option 53), Requested IP
   * Address (option 50) and Server Identifier (option 54), each possibly absent.
   */
  datatype DhcpLayer = DhcpLayer(
    messageType: Option<string>,
    requestedIp: Option<string>,
    serverId: Option<string>)

  /** A decoded packet; the capture time is in whole seconds. */
  datatype Packet = Packet(sniffTime: int, eth: Option<EthLayer>, dhcp: Option<DhcpLayer>)

  /** One row of the analyzer's table: time, src_mac, dst_mac, type, client_ip, server_ip. */
  datatype Event = Event(
    time: int,
    srcMac: string,
    dstMac: string,
    msgType: string,
    clientIp: string,
    serverIp: string)
}
