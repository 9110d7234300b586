/** The filter's guarantees, stated about packets on the wire. */
module EndToEnd {
  import opened Wire
  import opened EbpfHeaders
  import opened SliceHeaders
  import opened HandshakeGrammar
  import opened Flows
  import opened Filter
  import opened Datagram
  import Bytewise

  /** A parseable packet of flow `f` to the Minecraft port. */
  predicate Belongs(named: set<Byte>, t: Traffic, f: FlowKey) {
    && t.Packet?
    && ParseHeaders(named, t.bytes).Ok?
    && var h := ParseHeaders(named, t.bytes).value; h.ipv4.destinationPort == MINECRAFT_PORT && FlowOf(h.ipv4) == f
  }

  function Tcp(named: set<Byte>, t: Traffic, f: FlowKey): TcpInfo
    requires Belongs(named, t, f)
  {
    ParseHeaders(named, t.bytes).value.tcp
  }

  /** The TCP payload, as the slice parsers cut it out of the frame. */
  function Data(named: set<Byte>, t: Traffic, f: FlowKey): seq<Byte>
    requires Belongs(named, t, f)
  {
    HeadersRefine(named, t.bytes);
    ParseFrame(t.bytes).value.tcp.payload
  }

  /** To belong to a flow is to be a segment, byte for byte, with that flow's addresses and ports in it. */
  lemma BelongsExactly(named: set<Byte>, t: Traffic, f: FlowKey)
    ensures Belongs(named, t, f) <==> t.Packet? && IsSegment(t.bytes) && Bytewise.KeyOf(t.bytes) == f
    ensures Belongs(named, t, f) ==> Data(named, t, f) == Content(t.bytes)
    ensures Belongs(named, t, f) ==>
              var flags := Tcp(named, t, f).flags;
              && (flags.IsSyn() <==> Syn(t.bytes))
              && (flags.IsFin() || flags.IsRst() <==> Fin(t.bytes) || Rst(t.bytes))
  {
    hide StartsWithHandshake, IsSegment, Content, Data, Bytewise.KeyOf;
    if t.Packet? {
      Bytewise.SeenExactly(named, t.bytes);
    }
    if Belongs(named, t, f) {
      DataIsPayload(named, t, f);
      Bytewise.ContentRead(t.bytes);
    }
  }

  /** Two packets belong to one flow exactly when their address and port bytes agree. */
  lemma ConnectionsApart(named: set<Byte>, s: Traffic, t: Traffic, f: FlowKey, g: FlowKey)
    requires Belongs(named, s, f) && Belongs(named, t, g)
    ensures ShowsTcp(s.bytes) && ShowsTcp(t.bytes)
    ensures f == g <==> Addresses(s.bytes) == Addresses(t.bytes) && Ports(s.bytes) == Ports(t.bytes)
  {
    hide Belongs, Data, Tcp, Bytewise.KeyOf;
    BelongsExactly(named, s, f);
    BelongsExactly(named, t, g);
    Bytewise.SameKeyExactly(s.bytes, t.bytes);
  }

  /** The table logic sees a packet of `f` exactly when one is on the wire, and judges its real flags and payload. */
  lemma ObservedTruly(named: set<Byte>, t: Traffic, f: FlowKey)
    ensures IsPacketOf(EventOf(named, t), f) <==> Belongs(named, t, f)
    ensures Belongs(named, t, f) ==> IsSegment(t.bytes)
    ensures Belongs(named, t, f) ==>
              var s, flags := EventOf(named, t).seen.segment, Tcp(named, t, f).flags;
              && s.syn == flags.IsSyn() == Syn(t.bytes)
              && s.ends == (flags.IsFin() || flags.IsRst()) == (Fin(t.bytes) || Rst(t.bytes))
              && (s.empty <==> Data(named, t, f) == [])
              && (s.handshake <==> StartsWithHandshake(Data(named, t, f)))
  {
    hide StartsWithHandshake, Data, Payload, IsSegment, Content, Bytewise.KeyOf;
    if Belongs(named, t, f) {
      BelongsExactly(named, t, f);
      DataIsPayload(named, t, f);
    }
  }

  lemma DataIsPayload(named: set<Byte>, t: Traffic, f: FlowKey)
    requires Belongs(named, t, f)
    ensures Data(named, t, f) == Payload(t.bytes, Tcp(named, t, f))
    ensures |Data(named, t, f)| == Tcp(named, t, f).payloadLen
  {
    hide ParseHeaders, ParseFrame, TcpFlags.Agrees;
    HeadersRefine(named, t.bytes);
    var tcp := Tcp(named, t, f);
    assert Payload(t.bytes, tcp) == t.bytes[tcp.payloadOffset..tcp.payloadOffset + tcp.payloadLen];
  }

  /** Packet `j` of `f` opens with a valid handshake and is let through. */
  ghost predicate DeliversHandshake(named: set<Byte>, traffic: seq<Traffic>, j: nat, f: FlowKey)
    requires j < |traffic|
  {
    && Belongs(named, traffic[j], f)
    && StartsWithHandshake(Data(named, traffic[j], f))
    && Answer(named, traffic, j) == Pass
  }

  /** From packet `j` to packet `k` of `f`: no SYN after `j`, no FIN or RST from `j` on before `k`. */
  ghost predicate SameConnection(named: set<Byte>, traffic: seq<Traffic>, j: nat, k: nat, f: FlowKey)
    requires j <= k < |traffic|
  {
    forall m | j <= m <= k && Belongs(named, traffic[m], f) ::
      var flags := Tcp(named, traffic[m], f).flags;
      (j < m ==> !flags.IsSyn()) && (m < k ==> !flags.IsFin() && !flags.IsRst())
  }

  /**
    No data reaches the server on a connection that has not delivered a complete valid handshake,
    whatever the kernel evicts and whatever else is on the wire.
   */
  lemma NoDataBeforeHandshake(named: set<Byte>, traffic: seq<Traffic>, k: nat, f: FlowKey)
    requires k < |traffic| && Belongs(named, traffic[k], f)
    requires Data(named, traffic[k], f) != [] && Answer(named, traffic, k) == Pass
    ensures exists j :: 0 <= j <= k &&
              DeliversHandshake(named, traffic, j, f) && SameConnection(named, traffic, j, k, f)
  {
    hide Belongs, Observe, StartsWithHandshake, Data, Tcp, At;
    var es := Events(named, traffic);
    ObservedTruly(named, traffic[k], f);
    assert PassesData(es, k, f);
    DataFollowsHandshake(es, k, f);
    var j :| 0 <= j <= k && PassesHandshake(es, j, f) && SameEpoch(es, j, k, f);
    ObservedTruly(named, traffic[j], f);
    assert DeliversHandshake(named, traffic, j, f);
    forall m | j <= m <= k && Belongs(named, traffic[m], f)
      ensures var flags := Tcp(named, traffic[m], f).flags;
              (j < m ==> !flags.IsSyn()) && (m < k ==> !flags.IsFin() && !flags.IsRst())
    {
      ObservedTruly(named, traffic[m], f);
      assert IsPacketOf(es[m], f);
    }
    assert SameConnection(named, traffic, j, k, f);
  }

  /**
    After a handshake that is not itself the end of the connection, and while the kernel keeps the flow,
    all of the connection's packets are let through up to and including the one that ends it.
   */
  lemma EverythingAfterHandshake(named: set<Byte>, traffic: seq<Traffic>, j: nat, k: nat, f: FlowKey)
    requires j < k < |traffic|
    requires Belongs(named, traffic[j], f) && Belongs(named, traffic[k], f)
    requires StartsWithHandshake(Data(named, traffic[j], f)) && traffic[j].stored
    requires SameConnection(named, traffic, j, k, f)
    requires forall m | j < m < k :: traffic[m].Loss? ==> f !in traffic[m].flows
    ensures Answer(named, traffic, k) == Pass
  {
    hide Belongs, Observe, StartsWithHandshake, Data, Tcp, At;
    var es := Events(named, traffic);
    forall m | j <= m <= k
      ensures Belongs(named, traffic[m], f) <==> IsPacketOf(es[m], f)
      ensures j < m < k ==> !Closes(es[m], f)
      ensures m == k ==> !es[m].seen.segment.syn
      ensures m == j ==> Opens(es[m], f)
    {
      ObservedTruly(named, traffic[m], f);
      if m == j {
        EmptyIsNoHandshake();
      }
    }
    assert Quiet(es, j + 1, k, f);
    Delivery({}, es, j, k, f);
  }

  predicate SendsData(named: set<Byte>, t: Traffic, f: FlowKey) {
    Belongs(named, t, f) && Data(named, t, f) != []
  }

  /**
    Once data of a connection has been dropped, the rest is dropped if and only if none of it is a valid
    handshake, under any losses and any other traffic.
   */
  lemma BlockedExactlyUntilHandshake(named: set<Byte>, traffic: seq<Traffic>, j: nat, k: nat, f: FlowKey)
    requires j < k <= |traffic|
    requires SendsData(named, traffic[j], f) && Answer(named, traffic, j) == Drop
    ensures (forall m | j < m < k && SendsData(named, traffic[m], f) :: Answer(named, traffic, m) == Drop)
         <==> (forall m | j < m < k && SendsData(named, traffic[m], f) ::
                 !StartsWithHandshake(Data(named, traffic[m], f)))
  {
    hide Belongs, Observe, StartsWithHandshake, Data, Tcp, At;
    var es := Events(named, traffic);
    forall m | j <= m < k
      ensures SendsData(named, traffic[m], f) <==> CarriesData(es[m], f)
      ensures CarriesData(es[m], f) ==>
                (es[m].seen.segment.handshake <==> StartsWithHandshake(Data(named, traffic[m], f)))
      ensures CarriesData(es[m], f) ==> Answer(named, traffic, m) == Flows.Verdict(At({}, es, m), es[m])
    {
      ObservedTruly(named, traffic[m], f);
    }
    Flows.BlockedExactlyUntilHandshake({}, es, j, k, f);
    assert AllDropped({}, es, j + 1, k, f)
      <==> forall m | j < m < k && SendsData(named, traffic[m], f) :: Answer(named, traffic, m) == Drop;
    assert NoHandshake(es, j + 1, k, f)
      <==> forall m | j < m < k && SendsData(named, traffic[m], f) :: !StartsWithHandshake(Data(named, traffic[m], f));
  }

  // ---- What is settled without the table --------------------------------------------

  /** A TCP segment to the Minecraft port, as the slice parsers see it. */
  predicate ToServer(packet: seq<Byte>) {
    && ParseFrame(packet).Ok?
    && EtherType(packet) == ETHERTYPE_IPV4
    && ParseFrame(packet).value.tcp.destinationPort == MINECRAFT_PORT
  }

  /** Headers both stacks read alike: no short IP header, no jumbo datagram, no fragment. */
  predicate Ordinary(packet: seq<Byte>)
    requires |packet| >= ETH_LEN + IPV4_LEN
  {
    Ihl(packet) >= IPV4_LEN && TotalLength(packet) <= MAX_TOTAL && !IsFragment(packet)
  }

  /**
    No bypass: a segment to the Minecraft port is judged by the table, or answered with a drop. It is
    judged exactly when its headers are ordinary: no short IP header, no jumbo datagram, no fragment.
   */
  lemma NoBypass(named: set<Byte>, traffic: seq<Traffic>, k: nat)
    requires k < |traffic| && traffic[k].Packet? && ToServer(traffic[k].bytes)
    ensures Observe(named, traffic[k].bytes).Seen? <==> Ordinary(traffic[k].bytes)
    ensures !Ordinary(traffic[k].bytes) ==> SettledAs(named, traffic, k, Drop)
  {
    SettledIsAnswered(named, traffic, k);
    hide StartsWithHandshake, SettledAs;
    var packet := traffic[k].bytes;
    Ipv4Stage(packet);
    if Ihl(packet) >= IPV4_LEN {
      TcpStage(packet);
    }
  }

  /** The destination port at its place behind the IP header, were the packet to reach that far. */
  function PortField(packet: seq<Byte>): nat
    requires |packet| >= ETH_LEN + IPV4_LEN && ETH_LEN + Ihl(packet) + TCP_LEN <= |packet|
  {
    Be16(packet[ETH_LEN + Ihl(packet) + 2], packet[ETH_LEN + Ihl(packet) + 3])
  }

  /**
    Up to the IP layer, by what the slice parsers report: a packet physically too short for a header
    aborts, well-formed traffic that is not IPv4, or not TCP but named, passes, and anything else wrong
    is dropped.
   */
  lemma SettledUpToIp(named: set<Byte>, traffic: seq<Traffic>, k: nat)
    requires k < |traffic| && traffic[k].Packet?
    ensures var packet := traffic[k].bytes;
            match ParseEthernet(packet)
            case Err(_) => SettledAs(named, traffic, k, Aborted)
            case Ok(e) =>
              if e.ethertype != ETHERTYPE_IPV4 then SettledAs(named, traffic, k, Pass)
              else
                match ParseIpv4(e.payload)
                case Err(UnsupportedIpVersion(_)) => SettledAs(named, traffic, k, Drop)
                case Err(UnsupportedIpProtocol(n)) =>
                  SettledAs(named, traffic, k, if n in named then Pass else Drop)
                case Err(_) => SettledAs(named, traffic, k, if |e.payload| < IPV4_LEN then Aborted else Drop)
                case Ok(_) => !Ordinary(packet) ==> SettledAs(named, traffic, k, Drop)
  {
    SettledIsAnswered(named, traffic, k);
    hide StartsWithHandshake, SettledAs;
    if |traffic[k].bytes| >= ETH_LEN + IPV4_LEN {
      Ipv4Stage(traffic[k].bytes);
    }
  }

  /** The IP layer is in order, and the slice parsers go on to the TCP header. */
  predicate ReachesTcp(packet: seq<Byte>) {
    && ParseEthernet(packet).Ok?
    && ParseEthernet(packet).value.ethertype == ETHERTYPE_IPV4
    && ParseIpv4(ParseEthernet(packet).value.payload).Ok?
    && Ordinary(packet)
  }

  /**
    Past the IP layer, by what the slice parser makes of the TCP header: a segment it reads is judged by
    the table exactly when it goes to the Minecraft port, and passes otherwise. One it faults is never
    judged; it aborts when the packet ends inside the TCP header, and else passes or drops by the port
    field, be it data or padding.
   */
  lemma SettledAtTcp(named: set<Byte>, traffic: seq<Traffic>, k: nat)
    requires k < |traffic| && traffic[k].Packet? && ReachesTcp(traffic[k].bytes)
    ensures var packet := traffic[k].bytes;
            match ParseTcp(ParseIpv4(ParseEthernet(packet).value.payload).value.payload)
            case Ok(segment) =>
              if segment.destinationPort == MINECRAFT_PORT then Observe(named, packet).Seen?
              else SettledAs(named, traffic, k, Pass)
            case Err(_) =>
              SettledAs(named, traffic, k,
                        if |packet| < ETH_LEN + Ihl(packet) + TCP_LEN then Aborted
                        else if PortField(packet) != MINECRAFT_PORT then Pass else Drop)
  {
    SettledIsAnswered(named, traffic, k);
    hide StartsWithHandshake, SettledAs;
    Ipv4Stage(traffic[k].bytes);
    TcpStage(traffic[k].bytes);
  }
}
