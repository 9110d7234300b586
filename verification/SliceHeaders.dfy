/** The header parsers over slices: each layer hands the next its payload. */
module SliceHeaders {
  import opened Wire
  import BitOps

  const ETHERTYPE_IPV4 := 0x0800
  const IP_PROTOCOL_TCP: Byte := 6

  datatype EthernetFrame = EthernetFrame(ethertype: nat, payload: seq<Byte>)

  datatype Ipv4Header = Ipv4Header(protocol: Byte, source: seq<Byte>, destination: seq<Byte>)

  datatype Ipv4Packet = Ipv4Packet(header: Ipv4Header, payload: seq<Byte>)

  datatype TcpSegment = TcpSegment(sourcePort: nat, destinationPort: nat, flags: TcpFlags, payload: seq<Byte>)

  datatype NetError =
    | TooShort
    | UnsupportedEthertype(ethertype: nat)
    | UnsupportedIpVersion(version: nat)
    | UnsupportedIpProtocol(protocol: Byte)

  const FIN_BIT: bv8 := 0x01
  const SYN_BIT: bv8 := 0x02
  const RST_BIT: bv8 := 0x04
  const PSH_BIT: bv8 := 0x08
  const ACK_BIT: bv8 := 0x10

  datatype TcpFlags = TcpFlags(bits: bv8) {
    predicate IsFin() {
      bits & FIN_BIT != 0
    }

    predicate IsSyn() {
      bits & SYN_BIT != 0
    }

    predicate IsRst() {
      bits & RST_BIT != 0
    }

    predicate IsPsh() {
      bits & PSH_BIT != 0
    }

    predicate IsAck() {
      bits & ACK_BIT != 0
    }

    /** The five predicates cannot tell the two apart. */
    predicate Agrees(other: TcpFlags) {
      && (IsFin() <==> other.IsFin())
      && (IsSyn() <==> other.IsSyn())
      && (IsRst() <==> other.IsRst())
      && (IsPsh() <==> other.IsPsh())
      && (IsAck() <==> other.IsAck())
    }
  }

  /** `TcpFlags::from(&u8)` keeps all eight bits of the flags byte. */
  function RawFlags(flagsByte: Byte): TcpFlags {
    TcpFlags(flagsByte as bv8)
  }

  /** The five flags of a header's flags byte, the other three cleared. */
  function HeaderFlags(flagsByte: Byte): TcpFlags {
    TcpFlags(flagsByte as bv8 & 0x1F)
  }

  /** Builds the flags bit by bit from the header's bitfield getters. */
  method FromHeader(flagsByte: Byte) returns (r: TcpFlags)
    ensures r == HeaderFlags(flagsByte)
  {
    var header := flagsByte as bv8;
    var flags: bv8 := 0;
    if header & 0x01 != 0 {
      flags := flags | FIN_BIT;
    }
    if header & 0x02 != 0 {
      flags := flags | SYN_BIT;
    }
    if header & 0x04 != 0 {
      flags := flags | RST_BIT;
    }
    if header & 0x08 != 0 {
      flags := flags | PSH_BIT;
    }
    if header & 0x10 != 0 {
      flags := flags | ACK_BIT;
    }
    r := TcpFlags(flags);
  }

  /** Dropping the three high bits is invisible to every predicate, and that is all the two forms differ by. */
  lemma FlagsAgree(flagsByte: Byte)
    ensures HeaderFlags(flagsByte).Agrees(RawFlags(flagsByte))
    ensures HeaderFlags(flagsByte) == RawFlags(flagsByte) <==> flagsByte as bv8 < 0x20
  {
    MaskedFlags(flagsByte as bv8);
  }

  lemma MaskedFlags(x: bv8)
    ensures TcpFlags(x & 0x1F).Agrees(TcpFlags(x))
    ensures x & 0x1F == x <==> x < 0x20
  {
  }

  /** Which bit of the flags byte each of the five questions is about, whatever the other bits are. */
  lemma FlagBits(flagsByte: Byte)
    ensures var f, x := HeaderFlags(flagsByte), flagsByte as bv8;
            && (f.IsFin() <==> x & 0x01 != 0)
            && (f.IsSyn() <==> x & 0x02 != 0)
            && (f.IsRst() <==> x & 0x04 != 0)
            && (f.IsPsh() <==> x & 0x08 != 0)
            && (f.IsAck() <==> x & 0x10 != 0)
    ensures var f := HeaderFlags(flagsByte);
            && (f.IsFin() <==> flagsByte % 2 == 1)
            && (f.IsSyn() <==> flagsByte / 2 % 2 == 1)
            && (f.IsRst() <==> flagsByte / 4 % 2 == 1)
            && (f.IsPsh() <==> flagsByte / 8 % 2 == 1)
            && (f.IsAck() <==> flagsByte / 16 % 2 == 1)
  {
    MaskedBits(flagsByte as bv8);
    BitOps.LowBits(flagsByte);
  }

  lemma MaskedBits(x: bv8)
    ensures var f := TcpFlags(x & 0x1F);
            && (f.IsFin() <==> x & 0x01 != 0)
            && (f.IsSyn() <==> x & 0x02 != 0)
            && (f.IsRst() <==> x & 0x04 != 0)
            && (f.IsPsh() <==> x & 0x08 != 0)
            && (f.IsAck() <==> x & 0x10 != 0)
  {
  }

  function ParseEthernet(frame: seq<Byte>): Result<EthernetFrame, NetError> {
    if |frame| < 14 then Err(TooShort)
    else Ok(EthernetFrame(Be16(frame[12], frame[13]), frame[14..]))
  }

  function ParseIpv4(packet: seq<Byte>): Result<Ipv4Packet, NetError> {
    if |packet| < 20 then Err(TooShort)
    else if HighNibble(packet[0]) != 4 then Err(UnsupportedIpVersion(HighNibble(packet[0])))
    else if packet[9] != IP_PROTOCOL_TCP then Err(UnsupportedIpProtocol(packet[9]))
    else
      var headerLen := LowNibble(packet[0]) * 4;
      var totalLen := Be16(packet[2], packet[3]);
      if headerLen <= totalLen <= |packet| then
        Ok(Ipv4Packet(Ipv4Header(packet[9], packet[12..16], packet[16..20]), packet[headerLen..totalLen]))
      else Err(TooShort)
  }

  function ParseTcp(segment: seq<Byte>): Result<TcpSegment, NetError> {
    if |segment| <= 12 then Err(TooShort)
    else
      var headerLen := HighNibble(segment[12]) * 4;
      if |segment| < headerLen || headerLen < 20 then Err(TooShort)
      else Ok(TcpSegment(Be16(segment[0], segment[1]), Be16(segment[2], segment[3]),
                         RawFlags(segment[13]), segment[headerLen..]))
  }

  // ---- Every result, by the bytes ------------------------------------------------

  lemma EthernetExactly(frame: seq<Byte>)
    ensures ParseEthernet(frame) == Err(TooShort) <==> |frame| < 14
    ensures ParseEthernet(frame).Ok? <==> |frame| >= 14
    ensures |frame| >= 14 ==>
              var e := ParseEthernet(frame).value;
              e.ethertype == BigEndian(frame[12..14]) && frame == frame[..14] + e.payload
  {
    if |frame| >= 14 {
      BigEndianPair(frame[12..14]);
    }
  }

  /**
    A wrong version is reported before a wrong protocol, and either before lengths that do not fit; only
    a packet of less than 20 bytes is too short whatever it holds.
   */
  lemma Ipv4Exactly(packet: seq<Byte>, v: nat, n: Byte)
    ensures ParseIpv4(packet) == Err(UnsupportedIpVersion(v)) <==> |packet| >= 20 && packet[0] / 16 == v && v != 4
    ensures ParseIpv4(packet) == Err(UnsupportedIpProtocol(n))
       <==> |packet| >= 20 && packet[0] / 16 == 4 && packet[9] == n && n != 6
    ensures ParseIpv4(packet) == Err(TooShort)
       <==> (|packet| >= 20 ==>
               && packet[0] / 16 == 4 && packet[9] == 6
               && !(4 * (packet[0] % 16) <= BigEndian(packet[2..4]) <= |packet|))
    ensures ParseIpv4(packet).Ok?
       <==> (&& |packet| >= 20 && packet[0] / 16 == 4 && packet[9] == 6
             && 4 * (packet[0] % 16) <= BigEndian(packet[2..4]) <= |packet|)
    ensures ParseIpv4(packet).Ok? ==>
              ParseIpv4(packet).value
              == Ipv4Packet(Ipv4Header(6, packet[12..16], packet[16..20]),
                            packet[4 * (packet[0] % 16)..BigEndian(packet[2..4])])
  {
    if |packet| >= 20 {
      BigEndianPair(packet[2..4]);
    }
  }

  /** Anything but a whole header of its announced size, at least 20 bytes, is too short. */
  lemma TcpExactly(segment: seq<Byte>)
    ensures ParseTcp(segment) == Err(TooShort)
       <==> (|segment| >= 20 ==> !(20 <= 4 * (segment[12] / 16) <= |segment|))
    ensures ParseTcp(segment).Err? ==> ParseTcp(segment).error == TooShort
    ensures ParseTcp(segment).Ok? ==>
              var t, b := ParseTcp(segment).value, segment[13];
              && t.sourcePort == BigEndian(segment[..2])
              && t.destinationPort == BigEndian(segment[2..4])
              && (t.flags.IsFin() <==> b % 2 == 1)
              && (t.flags.IsSyn() <==> b / 2 % 2 == 1)
              && (t.flags.IsRst() <==> b / 4 % 2 == 1)
              && (t.flags.IsPsh() <==> b / 8 % 2 == 1)
              && (t.flags.IsAck() <==> b / 16 % 2 == 1)
              && t.payload == segment[4 * (segment[12] / 16)..]
  {
    hide RawFlags, HeaderFlags, TcpFlags.IsFin, TcpFlags.IsSyn, TcpFlags.IsRst, TcpFlags.IsPsh, TcpFlags.IsAck;
    if ParseTcp(segment).Ok? {
      BigEndianPair(segment[..2]);
      BigEndianPair(segment[2..4]);
      FlagBits(segment[13]);
      FlagsAgree(segment[13]);
    }
  }

  datatype ParsedFrame = ParsedFrame(ethernet: EthernetFrame, ipv4: Ipv4Packet, tcp: TcpSegment)

  /** The three layers in turn. */
  function ParseFrame(frame: seq<Byte>): Result<ParsedFrame, NetError> {
    var ethernet :- ParseEthernet(frame);
    var ipv4 :- ParseIpv4(ethernet.payload);
    var tcp :- ParseTcp(ipv4.payload);
    Ok(ParsedFrame(ethernet, ipv4, tcp))
  }
}
