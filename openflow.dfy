/** The OpenFlow 1.0 vocabulary the controllers use: ports, buffered
    packet-in notifications and the one message each notification answers. */
module OpenFlow {
  import opened Packets

  /** A 16-bit OpenFlow 1.0 port number. */
  type Port = x: int | 0 <= x < 0x1_0000
  /** The switch-side id of a buffered packet (opaque to the controller). */
  type BufferId = int
  /** The id of a switch connection: a switch that reconnects gets a new one. */
  type SwitchId = nat

  /** Reserved ports, section 5.2.1 of the OpenFlow Switch Specification 1.0.0. */
  const OFPP_FLOOD: Port := 0xfffb
  const OFPP_NONE: Port := 0xffff

  /** An unmatched packet reported by a switch: the port it came in on, the
      buffer holding it and its parsed contents. */
  datatype PacketIn = PacketIn(inPort: Port, bufferId: BufferId, packet: Ethernet)

  /** The single message sent back for one packet-in.
      - Drop: an ofp_packet_out for the buffered packet with no actions.
      - ArpReply: an ofp_packet_out carrying `frame` as data, with the given
        `inPort` and one output action to `outPort`.
      - InstallRule: an ofp_flow_mod matching (dl_dst, dl_src) with one output
        action, the two timeouts, and the packet-in attached so that the
        switch also forwards the buffered packet along the new rule.
      - Flood: an ofp_packet_out for the buffered packet with one output
        action to OFPP_FLOOD. */
  datatype Action =
    | Drop(bufferId: BufferId, inPort: Port)
    | ArpReply(frame: Ethernet, inPort: Port, outPort: Port)
    | InstallRule(matchDst: Mac, matchSrc: Mac, outPort: Port,
                  idleTimeout: nat, hardTimeout: nat, packetIn: PacketIn)
    | Flood(bufferId: BufferId, inPort: Port)
}
