/** The XDP program: headers, recogniser and allow table put together, one verdict per packet. */
module Filter {
  import opened Wire
  import opened EbpfHeaders
  import opened HandshakeGrammar
  import opened Recogniser
  import opened Flows
  import SliceHeaders

  const MINECRAFT_PORT := 25565

  function FlowOf(ip: Ipv4Info): FlowKey {
    FlowKey(ip.sourceAddress, ip.destinationAddress, ip.sourcePort, ip.destinationPort)
  }

  /** No two connections share a key: each of the four parts tells connections apart. */
  lemma FlowsApart(a: Ipv4Info, b: Ipv4Info)
    ensures FlowOf(a) == FlowOf(b)
       <==> (&& a.sourceAddress == b.sourceAddress && a.destinationAddress == b.destinationAddress
             && a.sourcePort == b.sourcePort && a.destinationPort == b.destinationPort)
  {
  }

  /** The declared TCP payload. */
  function Payload(packet: seq<Byte>, tcp: TcpInfo): seq<Byte> {
    Window(packet, tcp.payloadOffset, tcp.payloadLen)
  }

  ghost function SegmentOf(packet: seq<Byte>, ip: Ipv4Info, tcp: TcpInfo): Segment {
    Segment(FlowOf(ip), tcp.flags.IsSyn(), tcp.flags.IsFin() || tcp.flags.IsRst(),
            tcp.payloadLen == 0, StartsWithHandshake(Payload(packet, tcp)))
  }

  /** What a packet means to the table: settled by a header check, or a segment to judge. */
  ghost function Observe(named: set<Byte>, packet: seq<Byte>): Observation {
    match CheckHeader(packet)
    case Err(action) => Settled(action)
    case Ok(_) =>
      match Ipv4TryParse(named, packet)
      case Err(action) => Settled(action)
      case Ok(ip) =>
        if ip.destinationPort != MINECRAFT_PORT then Settled(Pass)
        else
          match TcpTryParse(packet)
          case Err(action) => Settled(action)
          case Ok(tcp) => Seen(SegmentOf(packet, ip, tcp))
  }

  /** What happens on the wire and in the kernel: a packet, or entries of the table lost. */
  datatype Traffic = Packet(bytes: seq<Byte>, stored: bool) | Loss(flows: set<FlowKey>)

  ghost function EventOf(named: set<Byte>, t: Traffic): Event {
    match t
    case Packet(bytes, stored) => Arrive(Observe(named, bytes), stored)
    case Loss(flows) => Evict(flows)
  }

  ghost function Events(named: set<Byte>, traffic: seq<Traffic>): seq<Event> {
    seq(|traffic|, i requires 0 <= i < |traffic| => EventOf(named, traffic[i]))
  }

  /** What the filter answers to the `k`-th thing that happens, starting from an empty table. */
  ghost function Answer(named: set<Byte>, traffic: seq<Traffic>, k: nat): Action
    requires k < |traffic| && traffic[k].Packet?
  {
    Flows.Verdict(At({}, Events(named, traffic), k), Events(named, traffic)[k])
  }

  /** The headers alone decide packet `k`: the table has no say in the answer, whatever came before. */
  ghost predicate SettledAs(named: set<Byte>, traffic: seq<Traffic>, k: nat, action: Action)
    requires k < |traffic| && traffic[k].Packet?
  {
    Observe(named, traffic[k].bytes) == Settled(action) && Answer(named, traffic, k) == action
  }

  /** What the header checks settle is what the filter answers, in every run. */
  lemma SettledIsAnswered(named: set<Byte>, traffic: seq<Traffic>, k: nat)
    requires k < |traffic| && traffic[k].Packet?
    ensures var seen := Observe(named, traffic[k].bytes);
            seen.Settled? ==> SettledAs(named, traffic, k, seen.action)
  {
    hide Observe, At;
  }

  class XdpFilter {
    /** IP protocol numbers other than TCP that have a name. */
    const named: set<Byte>

    /** ALLOWED_FLOWS: the flows whose data passes without being looked at. */
    var allowed: set<FlowKey>

    /** Everything that has happened since the program was loaded. */
    ghost var history: seq<Traffic>

    ghost predicate Valid()
      reads this
    {
      allowed == At({}, Events(named, history), |history|)
    }

    constructor (named: set<Byte>)
      ensures Valid()
      ensures this.named == named && allowed == {} && history == []
    {
      this.named := named;
      allowed := {};
      history := [];
    }

    /** The table of a running filter, read off its history. */
    lemma AllowedExactly(f: FlowKey)
      requires Valid()
      ensures f in allowed <==> Open(Events(named, history), |history|, f)
    {
      MembershipExactly({}, Events(named, history), |history|, f);
    }

    /** One packet; `stored` is whether an insert would succeed. */
    method Verdict(packet: seq<Byte>, stored: bool) returns (action: Action)
      requires Valid()
      modifies this`allowed, this`history
      ensures Valid()
      ensures history == old(history) + [Packet(packet, stored)]
      ensures action == Flows.Verdict(old(allowed), Arrive(Observe(named, packet), stored))
      ensures allowed == Step(old(allowed), Arrive(Observe(named, packet), stored))
      ensures action == Answer(named, history, |history| - 1)
    {
      hide StartsWithHandshake, Window, At, Ipv4TryParse, TcpTryParse, CheckHeader, Events;
      Grow(named, history, Packet(packet, stored));
      history := history + [Packet(packet, stored)];

      var ethernet := CheckHeader(packet);
      if ethernet.Err? {
        return ethernet.error;
      }
      var parsed := Ipv4TryParse(named, packet);
      if parsed.Err? {
        return parsed.error;
      }
      var ipv4 := parsed.value;
      if ipv4.destinationPort != MINECRAFT_PORT {
        return Pass;
      }
      var segment := TcpTryParse(packet);
      if segment.Err? {
        return segment.error;
      }
      var tcp := segment.value;
      var flow := FlowKey(ipv4.sourceAddress, ipv4.destinationAddress, ipv4.sourcePort, ipv4.destinationPort);

      // Reset the flow before judging this segment.
      if tcp.flags.IsSyn() {
        allowed := allowed - {flow};
      }

      if tcp.payloadLen == 0 {
        action := Pass;
      } else if flow in allowed {
        action := Pass;
      } else {
        var checked, _ := CheckHandshake(packet, tcp.payloadOffset, tcp.payloadLen);
        if checked.Ok? {
          if stored {
            allowed := allowed + {flow};
          }
          action := Pass;
        } else {
          action := Drop;
        }
      }

      // Close the flow last: the segment's own data has its verdict by now.
      if tcp.flags.IsFin() || tcp.flags.IsRst() {
        allowed := allowed - {flow};
      }
    }

    /** The kernel reclaims entries, by whatever policy. */
    method Reclaim(flows: set<FlowKey>)
      requires Valid()
      modifies this`allowed, this`history
      ensures Valid()
      ensures history == old(history) + [Loss(flows)]
      ensures allowed == old(allowed) - flows
    {
      Grow(named, history, Loss(flows));
      history := history + [Loss(flows)];
      allowed := allowed - flows;
    }
  }

  /** One more event extends the run by one step. */
  lemma Grow(named: set<Byte>, history: seq<Traffic>, t: Traffic)
    ensures At({}, Events(named, history + [t]), |history| + 1)
         == Step(At({}, Events(named, history), |history|), EventOf(named, t))
    ensures t.Packet? ==>
              Answer(named, history + [t], |history|)
              == Flows.Verdict(At({}, Events(named, history), |history|), EventOf(named, t))
  {
    hide EventOf, Step;
    var es := Events(named, history);
    assert Events(named, history + [t]) == es + [EventOf(named, t)];
    PrefixRun({}, es, [EventOf(named, t)], |es|, FlowKey(0, 0, 0, 0));
  }
}
