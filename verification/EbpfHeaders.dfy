/**
  The header parsers of the kernel side: every read is an offset into the packet, bounded by its
  physical end; a failure carries the XDP action to take. Formats: section 3.1 of RFC 791 and
  section 3.1 of RFC 9293.
 */
module EbpfHeaders {
  import opened Wire
  import opened SliceHeaders

  const ETH_LEN := 14
  const IPV4_LEN := 20
  const TCP_LEN := 20
  const MAX_TOTAL := 1500

  datatype Ipv4Info = Ipv4Info(
    sourceAddress: nat, sourcePort: nat, destinationAddress: nat, destinationPort: nat,
    totalSize: nat, headerSize: nat)

  datatype TcpInfo = TcpInfo(
    sourcePort: nat, destinationPort: nat, flags: TcpFlags, payloadOffset: nat, payloadLen: nat)

  // ---- Fields of the fixed headers --------------------------------------------

  function EtherType(packet: seq<Byte>): nat
    requires |packet| >= ETH_LEN
  {
    Be16(packet[12], packet[13])
  }

  function Version(packet: seq<Byte>): nat
    requires |packet| >= ETH_LEN + IPV4_LEN
  {
    HighNibble(packet[14])
  }

  /** Header length in bytes. */
  function Ihl(packet: seq<Byte>): nat
    requires |packet| >= ETH_LEN + IPV4_LEN
  {
    4 * LowNibble(packet[14])
  }

  function TotalLength(packet: seq<Byte>): nat
    requires |packet| >= ETH_LEN + IPV4_LEN
  {
    Be16(packet[16], packet[17])
  }

  /** The "More Fragments" bit or a non-zero fragment offset. */
  predicate IsFragment(packet: seq<Byte>)
    requires |packet| >= ETH_LEN + IPV4_LEN
  {
    var word := Be16(packet[20], packet[21]);
    word % 0x2000 != 0 || word / 0x2000 % 2 == 1
  }

  /** The bits the fragment test is about: "More Fragments", or any of the thirteen of the offset. */
  lemma FragmentBits(packet: seq<Byte>)
    requires |packet| >= ETH_LEN + IPV4_LEN
    ensures IsFragment(packet) <==> packet[20] / 0x20 % 2 == 1 || packet[20] % 0x20 != 0 || packet[21] != 0
  {
  }

  function Protocol(packet: seq<Byte>): Byte
    requires |packet| >= ETH_LEN + IPV4_LEN
  {
    packet[23]
  }

  // ---- The three stages --------------------------------------------------------

  function CheckHeader(packet: seq<Byte>): Result<(), Action> {
    var _ :- PtrAt(packet, 0, ETH_LEN);
    if EtherType(packet) == ETHERTYPE_IPV4 then Ok(()) else Err(Pass)
  }

  /** `named` are the protocol numbers other than TCP that have a name. */
  function Ipv4TryParse(named: set<Byte>, packet: seq<Byte>): Result<Ipv4Info, Action> {
    var _ :- PtrAt(packet, ETH_LEN, IPV4_LEN);
    if Version(packet) != 4 then Err(Drop)
    else if Protocol(packet) != IP_PROTOCOL_TCP then
      if Protocol(packet) in named then Err(Pass) else Err(Drop)
    else
      var headerSize := Ihl(packet);
      var totalSize := TotalLength(packet);
      if headerSize < IPV4_LEN || totalSize < headerSize || totalSize > MAX_TOTAL then Err(Drop)
      else if IsFragment(packet) then Err(Drop)
      else if ETH_LEN + totalSize > |packet| then Err(Drop)
      else
        var tcp := ETH_LEN + headerSize;
        var _ :- PtrAt(packet, tcp, TCP_LEN);
        Ok(Ipv4Info(
          Be32(packet[26..30]), Be16(packet[tcp], packet[tcp + 1]),
          Be32(packet[30..34]), Be16(packet[tcp + 2], packet[tcp + 3]),
          totalSize, headerSize))
  }

  function TcpTryParse(packet: seq<Byte>): Result<TcpInfo, Action> {
    var _ :- PtrAt(packet, ETH_LEN, IPV4_LEN);
    var totalLen := TotalLength(packet);
    if totalLen > MAX_TOTAL then Err(Drop)
    else if totalLen > |packet| - ETH_LEN then Err(Drop)
    else
      var ipHeaderLen := Ihl(packet);
      if ipHeaderLen < IPV4_LEN || totalLen < ipHeaderLen then Err(Drop)
      else
        var offset := ETH_LEN + ipHeaderLen;
        var _ :- PtrAt(packet, offset, TCP_LEN);
        var headerLen := 4 * HighNibble(packet[offset + 12]);
        var segmentLen := totalLen - ipHeaderLen;
        if headerLen < TCP_LEN || segmentLen < headerLen then Err(Drop)
        else Ok(TcpInfo(
          Be16(packet[offset], packet[offset + 1]), Be16(packet[offset + 2], packet[offset + 3]),
          HeaderFlags(packet[offset + 13]), offset + headerLen, segmentLen - headerLen))
  }

  datatype Headers = Headers(ipv4: Ipv4Info, tcp: TcpInfo)

  /** The three stages in turn. */
  function ParseHeaders(named: set<Byte>, packet: seq<Byte>): Result<Headers, Action> {
    var _ :- CheckHeader(packet);
    var ipv4 :- Ipv4TryParse(named, packet);
    var tcp :- TcpTryParse(packet);
    Ok(Headers(ipv4, tcp))
  }

  // ---- What the stages agree on -------------------------------------------------

  /**
    The payload window: both parsers see the same ports, and headers and payload tile the declared
    datagram, all of which is physically there.
   */
  lemma PayloadWindow(named: set<Byte>, packet: seq<Byte>)
    requires Ipv4TryParse(named, packet).Ok? && TcpTryParse(packet).Ok?
    ensures var ip, tcp := Ipv4TryParse(named, packet).value, TcpTryParse(packet).value;
            && (tcp.sourcePort, tcp.destinationPort) == (ip.sourcePort, ip.destinationPort)
            && 20 <= ip.headerSize <= 60
            && tcp.payloadOffset - ETH_LEN - ip.headerSize == 4 * HighNibble(packet[ETH_LEN + ip.headerSize + 12])
            && 20 <= tcp.payloadOffset - ETH_LEN - ip.headerSize <= 60
            && tcp.payloadOffset + tcp.payloadLen == ETH_LEN + ip.totalSize <= |packet|
            && ip.totalSize <= MAX_TOTAL
  {
  }

  /** The bytes the recogniser is pointed at are exactly the slice parser's TCP payload. */
  predicate SameReading(h: Headers, p: ParsedFrame, packet: seq<Byte>) {
    && |p.ipv4.header.source| == 4 && |p.ipv4.header.destination| == 4
    && h.ipv4.sourceAddress == Be32(p.ipv4.header.source)
    && h.ipv4.destinationAddress == Be32(p.ipv4.header.destination)
    && h.ipv4.sourcePort == h.tcp.sourcePort == p.tcp.sourcePort
    && h.ipv4.destinationPort == h.tcp.destinationPort == p.tcp.destinationPort
    && h.tcp.flags.Agrees(p.tcp.flags)
    && h.tcp.payloadOffset + h.tcp.payloadLen <= |packet|
    && packet[h.tcp.payloadOffset..h.tcp.payloadOffset + h.tcp.payloadLen] == p.tcp.payload
  }

  /**
    The kernel path refines the slice path: it accepts exactly the frames the slice parsers accept that
    carry IPv4, have a full-size IP header, fit an Ethernet MTU and are no fragment, and reads the same
    out of them.
   */
  lemma HeadersRefine(named: set<Byte>, packet: seq<Byte>)
    ensures ParseHeaders(named, packet).Ok?
         <==> (&& ParseFrame(packet).Ok?
               && EtherType(packet) == ETHERTYPE_IPV4
               && Ihl(packet) >= IPV4_LEN
               && TotalLength(packet) <= MAX_TOTAL
               && !IsFragment(packet))
    ensures ParseHeaders(named, packet).Ok? ==>
              SameReading(ParseHeaders(named, packet).value, ParseFrame(packet).value, packet)
  {
    if |packet| >= ETH_LEN + IPV4_LEN && EtherType(packet) == ETHERTYPE_IPV4 {
      Ipv4Stage(packet);
      if Ipv4Fits(packet) && Ihl(packet) >= IPV4_LEN {
        TcpStage(packet);
      }
    }
  }

  /** What the slice parser asks of the IP header. */
  predicate Ipv4Fits(packet: seq<Byte>)
    requires |packet| >= ETH_LEN + IPV4_LEN
  {
    && Version(packet) == 4
    && Protocol(packet) == IP_PROTOCOL_TCP
    && Ihl(packet) <= TotalLength(packet) <= |packet| - ETH_LEN
  }

  /** The IP payload of the slice path. */
  function IpPayload(packet: seq<Byte>): seq<Byte>
    requires |packet| >= ETH_LEN + IPV4_LEN && Ipv4Fits(packet)
  {
    packet[ETH_LEN + Ihl(packet)..ETH_LEN + TotalLength(packet)]
  }

  lemma Ipv4Stage(packet: seq<Byte>)
    requires |packet| >= ETH_LEN + IPV4_LEN
    ensures ParseEthernet(packet) == Ok(EthernetFrame(EtherType(packet), packet[14..]))
    ensures ParseIpv4(packet[14..]).Ok? <==> Ipv4Fits(packet)
    ensures Ipv4Fits(packet) ==>
              ParseIpv4(packet[14..]) == Ok(Ipv4Packet(
                Ipv4Header(IP_PROTOCOL_TCP, packet[26..30], packet[30..34]), IpPayload(packet)))
  {
    var ip := packet[14..];
    assert ip[0] == packet[14] && ip[2] == packet[16] && ip[3] == packet[17] && ip[9] == packet[23];
    assert ip[12..16] == packet[26..30] && ip[16..20] == packet[30..34];
    if Ipv4Fits(packet) {
      assert ip[Ihl(packet)..TotalLength(packet)] == IpPayload(packet);
    }
  }

  lemma TcpStage(packet: seq<Byte>)
    requires |packet| >= ETH_LEN + IPV4_LEN && Ipv4Fits(packet) && Ihl(packet) >= IPV4_LEN
    ensures TotalLength(packet) <= MAX_TOTAL ==> (TcpTryParse(packet).Ok? <==> ParseTcp(IpPayload(packet)).Ok?)
    ensures ParseTcp(IpPayload(packet)).Ok? ==> ETH_LEN + Ihl(packet) + TCP_LEN <= |packet|
    ensures TcpTryParse(packet).Ok? && ParseTcp(IpPayload(packet)).Ok? ==>
              var t, s := TcpTryParse(packet).value, ParseTcp(IpPayload(packet)).value;
              && t.sourcePort == s.sourcePort == Be16(packet[ETH_LEN + Ihl(packet)], packet[ETH_LEN + Ihl(packet) + 1])
              && t.destinationPort == s.destinationPort
                 == Be16(packet[ETH_LEN + Ihl(packet) + 2], packet[ETH_LEN + Ihl(packet) + 3])
              && t.flags.Agrees(s.flags)
              && t.payloadOffset + t.payloadLen <= |packet|
              && packet[t.payloadOffset..t.payloadOffset + t.payloadLen] == s.payload
  {
    hide RawFlags, HeaderFlags, TcpFlags.Agrees;
    var o, ip := ETH_LEN + Ihl(packet), IpPayload(packet);
    if |ip| >= TCP_LEN {
      assert forall k | 0 <= k < 14 :: ip[k] == packet[o + k];
      assert ip[12] == packet[o + 12] && ip[13] == packet[o + 13];
      FlagsAgree(packet[o + 13]);
      var h := 4 * HighNibble(ip[12]);
      if h <= |ip| {
        assert ip[h..] == packet[o + h..o + |ip|];
      }
    }
  }
}
