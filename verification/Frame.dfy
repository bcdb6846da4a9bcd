/** Fields of an Ethernet frame that carries IPv4, by their byte offset in the first packet buffer. */
module Frame {
  import opened Words

  const ETHERNET_LENGTH: nat := 14
  const MIN_IP_LENGTH: nat := 20
  const PROTO_ICMP := 1
  const PROTO_TCP := 6

  /** Ethertype 0x0800 and IP version 4, in a buffer that holds both headers' fixed parts. */
  predicate IsIpv4(frame: seq<byte>)
  {
    |frame| >= ETHERNET_LENGTH + MIN_IP_LENGTH && frame[12] == 0x08 && frame[13] == 0x00 && frame[14] / 16 == 4
  }

  /** IHL counts 32-bit words. */
  function IpHeaderLength(frame: seq<byte>): nat
    requires IsIpv4(frame)
  {
    4 * (frame[14] % 16)
  }

  function IpTotalLength(frame: seq<byte>): u16
    requires IsIpv4(frame)
  {
    Be16(frame[16], frame[17])
  }

  function Protocol(frame: seq<byte>): byte
    requires IsIpv4(frame)
  {
    frame[23]
  }
}
