/**
  A TCP segment to the Minecraft server as a string of bytes: what each byte and bit means, as section 3.1
  of RFC 791 and section 3.1 of RFC 9293 lay the headers out, with no parser involved.
 */
module Datagram {
  import opened Wire

  /** An Ethernet header announcing IPv4. */
  predicate SaysIpv4(p: seq<Byte>) {
    |p| >= 14 && BigEndian(p[12..14]) == 0x0800
  }

  /** The IHL field counts words of four bytes. */
  function IpHeader(p: seq<Byte>): nat
    requires |p| >= 34
  {
    4 * (p[14] % 16)
  }

  function Total(p: seq<Byte>): nat
    requires |p| >= 34
  {
    BigEndian(p[16..18])
  }

  predicate SaysTcp(p: seq<Byte>)
    requires |p| >= 34
  {
    p[14] / 16 == 4 && p[23] == 6
  }

  /** Neither "More Fragments" nor any of the thirteen bits of the fragment offset. */
  predicate Whole(p: seq<Byte>)
    requires |p| >= 34
  {
    p[20] / 0x20 % 2 == 0 && p[20] % 0x20 == 0 && p[21] == 0
  }

  /** An unfragmented TCP datagram of a size the filter takes, all of it in the packet. */
  predicate SoundIp(p: seq<Byte>)
    requires |p| >= 34
  {
    SaysTcp(p) && 20 <= IpHeader(p) <= Total(p) <= 1500 && Whole(p) && 14 + Total(p) <= |p|
  }

  function TcpAt(p: seq<Byte>): nat
    requires |p| >= 34
  {
    14 + IpHeader(p)
  }

  /** The packet reaches through the fixed part of a TCP header. */
  predicate ShowsTcp(p: seq<Byte>) {
    |p| >= 34 && TcpAt(p) + 20 <= |p|
  }

  /** Destination port 25565. */
  predicate ToMinecraft(p: seq<Byte>)
    requires ShowsTcp(p)
  {
    BigEndian(p[TcpAt(p) + 2..TcpAt(p) + 4]) == 25565
  }

  /** The data offset counts words of four bytes. */
  function TcpHeader(p: seq<Byte>): nat
    requires ShowsTcp(p)
  {
    4 * (p[TcpAt(p) + 12] / 16)
  }

  predicate IsSegment(p: seq<Byte>) {
    && SaysIpv4(p)
    && ShowsTcp(p)
    && SoundIp(p)
    && ToMinecraft(p)
    && 20 <= TcpHeader(p) <= Total(p) - IpHeader(p)
  }

  predicate Fin(p: seq<Byte>)
    requires ShowsTcp(p)
  {
    p[TcpAt(p) + 13] % 2 == 1
  }

  predicate Syn(p: seq<Byte>)
    requires ShowsTcp(p)
  {
    p[TcpAt(p) + 13] / 2 % 2 == 1
  }

  predicate Rst(p: seq<Byte>)
    requires ShowsTcp(p)
  {
    p[TcpAt(p) + 13] / 4 % 2 == 1
  }

  /** Source and destination address. */
  function Addresses(p: seq<Byte>): seq<Byte>
    requires |p| >= 34
  {
    p[26..34]
  }

  /** Source and destination port. */
  function Ports(p: seq<Byte>): seq<Byte>
    requires ShowsTcp(p)
  {
    p[TcpAt(p)..TcpAt(p) + 4]
  }

  /** The data between the headers and the declared end. */
  function Content(p: seq<Byte>): seq<Byte>
    requires IsSegment(p)
  {
    p[TcpAt(p) + TcpHeader(p)..14 + Total(p)]
  }

  // ---- Everything else -----------------------------------------------------------

  /** The packet ends inside a header the filter has to read. */
  predicate CutShort(p: seq<Byte>) {
    || |p| < 14
    || (SaysIpv4(p) && |p| < 34)
    || (SaysIpv4(p) && |p| >= 34 && SoundIp(p) && !ShowsTcp(p))
  }

  /** Sound traffic that is none of the filter's business; `named` are the other protocols with a name. */
  predicate NotOurs(named: set<Byte>, p: seq<Byte>) {
    || (|p| >= 14 && !SaysIpv4(p))
    || (SaysIpv4(p) && |p| >= 34 && p[14] / 16 == 4 && p[23] != 6 && p[23] in named)
    || (SaysIpv4(p) && ShowsTcp(p) && SoundIp(p) && !ToMinecraft(p))
  }
}
