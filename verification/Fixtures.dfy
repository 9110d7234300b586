/** The frame and handshake builders of the test suite, and what the filter makes of everything they build. */
module Fixtures {
  import opened Wire
  import opened VarInt
  import opened EbpfHeaders
  import opened SliceHeaders
  import opened HandshakeGrammar
  import opened Flows
  import opened Filter
  import opened Encoding
  import EndToEnd

  const ETHERNET_HEADER: seq<Byte> :=
    [0x02, 0x00, 0x00, 0x00, 0x00, 0x01, 0x02, 0x00, 0x00, 0x00, 0x00, 0x02, 0x08, 0x00]

  /** IHL 5, no fragment, TCP, 10.0.1.4 to 10.43.255.65. */
  function Ipv4Bytes(lenHi: Byte, lenLo: Byte): seq<Byte> {
    [0x45, 0x00, lenHi, lenLo, 0x12, 0x34, 0x40, 0x00, 0x40, 0x06, 0x00, 0x00,
     0x0A, 0x00, 0x01, 0x04, 0x0A, 0x2B, 0xFF, 0x41]
  }

  /** Data offset 5, PSH and ACK, port 54321 to 25565. */
  const TCP_HEADER: seq<Byte> :=
    [0xD4, 0x31, 0x63, 0xDD, 0x00, 0x00, 0x00, 0x01, 0x00, 0x00, 0x00, 0x01,
     0x50, 0x18, 0x20, 0x00, 0x00, 0x00, 0x00, 0x00]

  function TcpFrame(payload: seq<Byte>): seq<Byte>
    requires 40 + |payload| < 0x1_0000
  {
    var totalLen := 20 + 20 + |payload|;
    ETHERNET_HEADER + Ipv4Bytes(totalLen / 256, totalLen % 256) + TCP_HEADER + payload
  }

  /** 10.0.1.4:54321 -> 10.43.255.65:25565 */
  const FIXTURE_FLOW := FlowKey(0x0A00_0104, 0x0A2B_FF41, 54321, 25565)

  lemma FrameParts(payload: seq<Byte>)
    requires 40 + |payload| < 0x1_0000
    ensures var p, total := TcpFrame(payload), 40 + |payload|;
            && |p| == 54 + |payload|
            && p[..14] == ETHERNET_HEADER
            && p[14..34] == Ipv4Bytes(total / 256, total % 256)
            && p[34..54] == TCP_HEADER
            && p[54..] == payload
  {
  }

  lemma FrameFields(payload: seq<Byte>)
    requires 40 + |payload| < 0x1_0000
    ensures var p := TcpFrame(payload);
            && |p| == 54 + |payload|
            && EtherType(p) == ETHERTYPE_IPV4 && Version(p) == 4 && Ihl(p) == 20
            && TotalLength(p) == 40 + |payload| && !IsFragment(p) && Protocol(p) == IP_PROTOCOL_TCP
            && Be32(p[26..30]) == FIXTURE_FLOW.sourceAddress && Be32(p[30..34]) == FIXTURE_FLOW.destinationAddress
            && Be16(p[34], p[35]) == FIXTURE_FLOW.sourcePort && Be16(p[36], p[37]) == FIXTURE_FLOW.destinationPort
            && HighNibble(p[46]) == 5 && p[47] == 0x18
  {
    hide TcpFrame;
    var p, total := TcpFrame(payload), 40 + |payload|;
    FrameParts(payload);
    EthernetFields(p);
    Ipv4Fields(p, total / 256, total % 256);
    TcpFields(p);
  }

  lemma EthernetFields(p: seq<Byte>)
    requires |p| >= 54 && p[..14] == ETHERNET_HEADER
    ensures EtherType(p) == ETHERTYPE_IPV4
  {
    assert p[12] == p[..14][12] && p[13] == p[..14][13];
  }

  lemma Ipv4Fields(p: seq<Byte>, hi: Byte, lo: Byte)
    requires |p| >= 54 && p[14..34] == Ipv4Bytes(hi, lo)
    ensures Version(p) == 4 && Ihl(p) == 20 && TotalLength(p) == Be16(hi, lo)
    ensures !IsFragment(p) && Protocol(p) == IP_PROTOCOL_TCP
    ensures Be32(p[26..30]) == 0x0A00_0104 && Be32(p[30..34]) == 0x0A2B_FF41
  {
    var ip := p[14..34];
    assert p[14] == ip[0] && p[16] == ip[2] && p[17] == ip[3] && p[20] == ip[6] && p[21] == ip[7] && p[23] == ip[9];
    assert p[26] == ip[12] && p[27] == ip[13] && p[28] == ip[14] && p[29] == ip[15];
    assert p[30] == ip[16] && p[31] == ip[17] && p[32] == ip[18] && p[33] == ip[19];
  }

  lemma TcpFields(p: seq<Byte>)
    requires |p| >= 54 && p[34..54] == TCP_HEADER
    ensures Be16(p[34], p[35]) == 54321 && Be16(p[36], p[37]) == 25565
    ensures HighNibble(p[46]) == 5 && p[47] == 0x18
  {
    var tcp := p[34..54];
    assert p[34] == tcp[0] && p[35] == tcp[1] && p[36] == tcp[2] && p[37] == tcp[3];
    assert p[46] == tcp[12] && p[47] == tcp[13];
  }

  lemma PushAck(b: Byte)
    requires b == 0x18
    ensures var f := HeaderFlags(b); !f.IsSyn() && !f.IsFin() && !f.IsRst()
  {
  }

  /** Build and parse: the built frame's payload is exactly what was put in, unless it exceeds the MTU. */
  lemma FrameJudged(named: set<Byte>, payload: seq<Byte>)
    requires 40 + |payload| < 0x1_0000
    ensures |payload| <= 1460 ==>
              && TcpTryParse(TcpFrame(payload)).Ok?
              && TcpTryParse(TcpFrame(payload)).value.payloadOffset == 54
              && TcpTryParse(TcpFrame(payload)).value.payloadLen == |payload|
              && Observe(named, TcpFrame(payload))
                 == Seen(Segment(FIXTURE_FLOW, false, false, payload == [], StartsWithHandshake(payload)))
    ensures |payload| > 1460 ==>
              && Observe(named, TcpFrame(payload)) == Settled(Drop)
              && forall table, stored ::
                   Flows.Verdict(table, Arrive(Observe(named, TcpFrame(payload)), stored)) == Drop
  {
    hide TcpFrame, StartsWithHandshake, HeaderFlags, TcpFlags.IsSyn, TcpFlags.IsFin, TcpFlags.IsRst;
    var p := TcpFrame(payload);
    FrameFields(payload);
    PushAck(p[47]);
    FramePayload(payload);
  }

  lemma FramePayload(payload: seq<Byte>)
    requires 40 + |payload| < 0x1_0000
    ensures Window(TcpFrame(payload), 54, |payload|) == payload
  {
    FrameParts(payload);
  }

  /** On a fresh table the filter passes the built frame, and remembers its flow, exactly as the grammar says. */
  lemma FreshTableVerdict(named: set<Byte>, payload: seq<Byte>)
    requires |payload| <= 1460
    ensures var e := Arrive(Observe(named, TcpFrame(payload)), true);
            && (Flows.Verdict({}, e) == Pass <==> payload == [] || StartsWithHandshake(payload))
            && Step({}, e) == if StartsWithHandshake(payload) then {FIXTURE_FLOW} else {}
  {
    hide Observe, StartsWithHandshake;
    FrameJudged(named, payload);
    EmptyIsNoHandshake();
  }

  // ---- A connection that opens with garbage ----------------------------------------

  /** A plain HTTP request, "GET / HTTP/1.1". */
  const HTTP_REQUEST: seq<Byte> :=
    [0x47, 0x45, 0x54, 0x20, 0x2F, 0x20, 0x48, 0x54, 0x54, 0x50, 0x2F, 0x31, 0x2E, 0x31, 0x0D, 0x0A]

  lemma RequestIsNoHandshake()
    ensures !StartsWithHandshake(HTTP_REQUEST)
  {
    RequestPrefix();
    if fr :| IsFrame(fr) && Bytes(fr) <= HTTP_REQUEST {
      FrameSlices(fr, HTTP_REQUEST);
    }
  }

  /** Its first byte reads as a length of 71, more than the request has. */
  lemma RequestPrefix()
    ensures DecodeFrom(HTTP_REQUEST, 0) == Number(0x47, 1)
  {
    LeadIs(HTTP_REQUEST, 0);
    assert HTTP_REQUEST[0..] == HTTP_REQUEST;
    assert HTTP_REQUEST[..1] == [0x47] && [0x47][1..] == [];
  }

  /**
    The documented block for the life of a connection, broken on the wire: the request is dropped, the
    handshake sent after it on the same connection passes, and then so does the request.
   */
  lemma GarbageThenHandshake(named: set<Byte>, address: seq<Byte>, state: nat)
    requires |address| <= MAX_SERVER_ADDRESS_BYTES && 1 <= state <= 3
    ensures var hello := Bytes(CanonicalFrame(769, address, 25565, state));
            && |hello| <= 1460
            && var request := Packet(TcpFrame(HTTP_REQUEST), true);
            var traffic := [request, Packet(TcpFrame(hello), true), request];
            && Answer(named, traffic, 0) == Drop
            && Answer(named, traffic, 1) == Pass
            && Answer(named, traffic, 2) == Pass
  {
    hide Observe, StartsWithHandshake, TcpFrame, CanonicalFrame;
    var hello := Bytes(CanonicalFrame(769, address, 25565, state));
    HelloFits(address, state);
    assert hello + [] == hello;
    CanonicalAccepted(769, address, 25565, state, []);
    RequestIsNoHandshake();
    FrameJudged(named, HTTP_REQUEST);
    FrameJudged(named, hello);
    EmptyIsNoHandshake();
    var request := Packet(TcpFrame(HTTP_REQUEST), true);
    var traffic := [request, Packet(TcpFrame(hello), true), request];
    var es := Events(named, traffic);
    assert At({}, es, 0) == {};
    assert At({}, es, 1) == {};
    assert At({}, es, 2) == {FIXTURE_FLOW};
  }

  lemma HelloFits(address: seq<Byte>, state: nat)
    requires |address| <= MAX_SERVER_ADDRESS_BYTES && 1 <= state <= 3
    ensures |Bytes(CanonicalFrame(769, address, 25565, state))| <= 1460
  {
    CanonicalLength(769, address, 25565, state);
    ShortPrefix(|Flatten(Canonical(769, address, 25565, state))|);
  }

  // ---- The handshake builder ------------------------------------------------------

  /** The builder's fields: protocol 769, port 25565, and the state as one raw byte. */
  function BuilderFields(address: seq<Byte>, nextState: Byte): Fields {
    Fields([0x00], [0x81, 0x06], Encode(|address|), address, [0x63, 0xDD], [nextState])
  }

  /** The builder's length prefix: one byte or two, never more. */
  function BuilderPrefix(bodyLen: nat): seq<Byte>
    requires bodyLen < 0x8000
  {
    if bodyLen < 0x80 then [bodyLen] else [bodyLen % 128 + 128, bodyLen / 128]
  }

  /** Bodies that do not fit the builder's integer conversions make it panic. */
  method BuildHandshake(address: seq<Byte>, nextState: Byte) returns (p: seq<Byte>)
    requires |Flatten(BuilderFields(address, nextState))| < 0x8000
    ensures p == Bytes(Frame(BuilderPrefix(|Flatten(BuilderFields(address, nextState))|),
                             BuilderFields(address, nextState)))
  {
    var body: seq<Byte> := [0x00, 0x81, 0x06];
    ghost var start := body;
    var addrLen: nat := |address|;
    while true
      invariant body + Encode(addrLen) == start + Encode(|address|)
      decreases addrLen
    {
      var byte := addrLen % 128;
      addrLen := addrLen / 128;
      if addrLen == 0 {
        body := body + [byte];
        break;
      }
      body := body + [byte + 128];
    }
    body := body + address;
    body := body + [0x63, 0xDD, nextState];
    Literals(nextState);
    Regroup([0x00], [0x81, 0x06], Encode(|address|), address, [0x63, 0xDD], [nextState]);
    var bodyLen := |body|;
    p := if bodyLen < 0x80 then [bodyLen] else [bodyLen % 128 + 128, bodyLen / 128];
    p := p + body;
  }

  /** What the builder makes is the canonical frame exactly when prefix and state each are one whole VarInt. */
  lemma BuiltIsCanonical(address: seq<Byte>, nextState: Byte)
    requires |Flatten(BuilderFields(address, nextState))| < 0x8000
    ensures Frame(BuilderPrefix(|Flatten(BuilderFields(address, nextState))|), BuilderFields(address, nextState))
            == CanonicalFrame(769, address, 25565, nextState)
         <==> (nextState < 128 && |Flatten(BuilderFields(address, nextState))| < 16384)
    ensures IsVarInt(BuilderPrefix(|Flatten(BuilderFields(address, nextState))|))
         <==> |Flatten(BuilderFields(address, nextState))| < 16384
  {
    hide Encode, Flatten;
    OneByte(0);
    Version769();
    StateByte(nextState);
    var f := BuilderFields(address, nextState);
    AddressFits(address, nextState);
    PrefixByte(|Flatten(f)|);
    assert f == Canonical(769, address, 25565, nextState) <==> nextState < 128;
  }

  lemma AddressFits(address: seq<Byte>, nextState: Byte)
    requires |Flatten(BuilderFields(address, nextState))| < 0x8000
    ensures |address| < 0x8000
  {
  }

  lemma StateByte(n: nat)
    requires n < 256
    ensures Encode(n) == [n] <==> n < 128
  {
    if n < 128 {
      OneByte(n);
    } else {
      OneByte(n / 128);
    }
  }

  lemma PrefixByte(n: nat)
    requires n < 0x8000
    ensures Encode(n) == BuilderPrefix(n) <==> n < 16384
    ensures IsVarInt(BuilderPrefix(n)) <==> n < 16384
  {
    if n < 16384 {
      ShortPrefix(n);
    } else {
      Powers();
      EncodeLength(n, 2);
    }
  }

  lemma Literals(nextState: Byte)
    ensures [0x00, 0x81, 0x06] == [0x00] + [0x81, 0x06]
    ensures [0x63, 0xDD, nextState] == [0x63, 0xDD] + [nextState]
  {
  }

  lemma Regroup(id: seq<Byte>, version: seq<Byte>, length: seq<Byte>, address: seq<Byte>,
                port: seq<Byte>, state: seq<Byte>)
    ensures (id + version) + length + address + (port + state)
         == Flatten(Fields(id, version, length, address, port, state))
  {
  }

  lemma ShortPrefix(n: nat)
    requires n < 16384
    ensures Encode(n) == if n < 0x80 then [n] else [n % 128 + 128, n / 128]
  {
    if n >= 0x80 {
      OneByte(n / 128);
    }
  }

  lemma OneByte(n: nat)
    requires n < 128
    ensures Encode(n) == [n]
  {
  }

  lemma Version769()
    ensures Encode(769) == [0x81, 0x06]
  {
    OneByte(6);
  }
}
