/** The whole filter in terms of bytes: what every packet of every run is answered, and why. */
module Bytewise {
  import opened Wire
  import opened EbpfHeaders
  import opened SliceHeaders
  import opened HandshakeGrammar
  import opened Flows
  import opened Filter
  import opened Datagram

  // ---- One packet ------------------------------------------------------------------

  /** The table's key for a segment. */
  function KeyOf(p: seq<Byte>): FlowKey
    requires ShowsTcp(p)
  {
    var t := TcpAt(p);
    FlowKey(BigEndian(p[26..30]), BigEndian(p[30..34]), BigEndian(p[t..t + 2]), BigEndian(p[t + 2..t + 4]))
  }

  /** Two segments share a key exactly when both addresses and both ports agree on the wire. */
  lemma SameKeyExactly(p: seq<Byte>, q: seq<Byte>)
    requires ShowsTcp(p) && ShowsTcp(q)
    ensures KeyOf(p) == KeyOf(q) <==> Addresses(p) == Addresses(q) && Ports(p) == Ports(q)
  {
    hide BigEndian, TcpAt;
    var t, u := TcpAt(p), TcpAt(q);
    SameHalves(p, 26, 30, 34, q, 26, 30, 34);
    SameHalves(p, t, t + 2, t + 4, q, u, u + 2, u + 4);
  }

  /** Two numbers next to each other agree exactly when the bytes of both do. */
  lemma SameHalves(p: seq<Byte>, i: nat, j: nat, k: nat, q: seq<Byte>, l: nat, m: nat, n: nat)
    requires i <= j <= k <= |p| && l <= m <= n <= |q|
    requires j - i == m - l && k - j == n - m
    ensures p[i..k] == q[l..n]
       <==> BigEndian(p[i..j]) == BigEndian(q[l..m]) && BigEndian(p[j..k]) == BigEndian(q[m..n])
  {
    BigEndianInjective(p[i..j], q[l..m]);
    BigEndianInjective(p[j..k], q[m..n]);
    var a, b := p[i..k], q[l..n];
    assert a == p[i..j] + p[j..k] && b == q[l..m] + q[m..n];
    assert p[i..j] == a[..j - i] && p[j..k] == a[j - i..] && q[l..m] == b[..j - i] && q[m..n] == b[j - i..];
  }

  /** What the bytes of a segment tell the table. */
  ghost function Told(p: seq<Byte>): Segment
    requires IsSegment(p)
  {
    Segment(KeyOf(p), Syn(p), Fin(p) || Rst(p), Content(p) == [], StartsWithHandshake(Content(p)))
  }

  /** The table judges exactly the segments, by what their bytes say. */
  lemma SeenExactly(named: set<Byte>, p: seq<Byte>)
    ensures Observe(named, p).Seen? <==> IsSegment(p)
    ensures IsSegment(p) ==> Observe(named, p) == Seen(Told(p))
  {
    hide StartsWithHandshake, BigEndian, Be16, Be32, HeaderFlags, TcpFlags.IsSyn, TcpFlags.IsFin, TcpFlags.IsRst;
    if |p| >= 14 {
      FieldsRead(p);
    }
    if ShowsTcp(p) {
      TcpRead(p);
    }
    if IsSegment(p) {
      SegmentRead(named, p);
    }
  }

  /** Every other packet is settled on the spot: cut short, none of the filter's business, or dropped. */
  lemma SettledExactly(named: set<Byte>, p: seq<Byte>)
    ensures Observe(named, p) == Settled(Aborted) <==> CutShort(p)
    ensures Observe(named, p) == Settled(Pass) <==> NotOurs(named, p)
    ensures Observe(named, p) == Settled(Drop) <==> !CutShort(p) && !NotOurs(named, p) && !IsSegment(p)
  {
    hide StartsWithHandshake, BigEndian, Be16, Be32, HeaderFlags, SegmentOf;
    if |p| >= 14 {
      FieldsRead(p);
    }
    if ShowsTcp(p) {
      TcpRead(p);
    }
  }

  lemma SegmentRead(named: set<Byte>, p: seq<Byte>)
    requires IsSegment(p)
    ensures Observe(named, p) == Seen(Told(p))
  {
    hide StartsWithHandshake, BigEndian, Be16, Be32, HeaderFlags, TcpFlags.IsSyn, TcpFlags.IsFin, TcpFlags.IsRst;
    FieldsRead(p);
    TcpRead(p);
    FlagBits(p[TcpAt(p) + 13]);
    ContentRead(p);
  }

  /** The declared payload is the content. */
  lemma ContentRead(p: seq<Byte>)
    requires IsSegment(p)
    ensures TcpTryParse(p).Ok? && Payload(p, TcpTryParse(p).value) == Content(p)
    ensures TcpTryParse(p).value.payloadLen == |Content(p)|
  {
    hide BigEndian, Be16;
    FieldsRead(p);
    TcpRead(p);
  }

  /** The fixed fields, as the parsers read them. */
  lemma FieldsRead(p: seq<Byte>)
    requires |p| >= 14
    ensures EtherType(p) == ETHERTYPE_IPV4 <==> SaysIpv4(p)
    ensures |p| >= 34 ==>
              && Ihl(p) == IpHeader(p) && TotalLength(p) == Total(p)
              && (IsFragment(p) <==> !Whole(p))
              && Be32(p[26..30]) == BigEndian(p[26..30])
              && Be32(p[30..34]) == BigEndian(p[30..34])
  {
    BigEndianPair(p[12..14]);
    if |p| >= 34 {
      BigEndianPair(p[16..18]);
      BigEndianQuad(p[26..30]);
      BigEndianQuad(p[30..34]);
      FragmentBits(p);
    }
  }

  lemma TcpRead(p: seq<Byte>)
    requires ShowsTcp(p)
    ensures var t := TcpAt(p);
            && Be16(p[t], p[t + 1]) == BigEndian(p[t..t + 2])
            && Be16(p[t + 2], p[t + 3]) == BigEndian(p[t + 2..t + 4])
  {
    var t := TcpAt(p);
    BigEndianPair(p[t..t + 2]);
    BigEndianPair(p[t + 2..t + 4]);
  }

  // ---- Whole runs --------------------------------------------------------------------

  /** Segments of one connection: equal addresses and ports. */
  predicate SamePeers(p: seq<Byte>, q: seq<Byte>) {
    IsSegment(p) && IsSegment(q) && Addresses(p) == Addresses(q) && Ports(p) == Ports(q)
  }

  /** `t` is a handshake on the connection of `p` that the kernel stores and that does not end it. */
  ghost predicate Admits(t: Traffic, p: seq<Byte>) {
    && t.Packet? && SamePeers(t.bytes, p)
    && StartsWithHandshake(Content(t.bytes)) && !Fin(t.bytes) && !Rst(t.bytes) && t.stored
  }

  /** `t` takes the connection of `p` out of the table: a SYN, FIN or RST on it, or an eviction. */
  predicate Forgets(t: Traffic, p: seq<Byte>)
    requires IsSegment(p)
  {
    match t
    case Packet(bytes, _) => SamePeers(bytes, p) && (Syn(bytes) || Fin(bytes) || Rst(bytes))
    case Loss(flows) => KeyOf(p) in flows
  }

  /** Before event `k` the connection of `p` was admitted, and not forgotten since. */
  ghost predicate Admitted(traffic: seq<Traffic>, k: nat, p: seq<Byte>)
    requires k <= |traffic| && IsSegment(p)
  {
    exists j :: 0 <= j < k && Admits(traffic[j], p) && forall m | j < m < k :: !Forgets(traffic[m], p)
  }

  /** What the filter is to answer, said on bytes alone. */
  ghost function Due(named: set<Byte>, traffic: seq<Traffic>, k: nat): Action
    requires k < |traffic| && traffic[k].Packet?
  {
    var p := traffic[k].bytes;
    if CutShort(p) then Aborted
    else if NotOurs(named, p) then Pass
    else if !IsSegment(p) then Drop
    else if Content(p) == [] || StartsWithHandshake(Content(p)) then Pass
    else if !Syn(p) && Admitted(traffic, k, p) then Pass
    else Drop
  }

  /** The program, whole: every packet of every run gets the answer its bytes and those before it call for. */
  lemma AnswerExactly(named: set<Byte>, traffic: seq<Traffic>, k: nat)
    requires k < |traffic| && traffic[k].Packet?
    ensures Answer(named, traffic, k) == Due(named, traffic, k)
  {
    hide Observe, StartsWithHandshake, At, SoundIp, CutShort, NotOurs, Content, KeyOf, Admitted, Open;
    var p, es := traffic[k].bytes, Events(named, traffic);
    SeenExactly(named, p);
    SettledExactly(named, p);
    if IsSegment(p) {
      VerdictExactly(es, k, KeyOf(p));
      AdmittedIsOpen(named, traffic, k, p);
    }
  }

  lemma AdmittedIsOpen(named: set<Byte>, traffic: seq<Traffic>, k: nat, p: seq<Byte>)
    requires k <= |traffic| && IsSegment(p)
    ensures Admitted(traffic, k, p) <==> Open(Events(named, traffic), k, KeyOf(p))
  {
    hide Opens, Closes, Admits, Forgets, EventOf, SoundIp, KeyOf;
    var es, f := Events(named, traffic), KeyOf(p);
    forall m | 0 <= m < k
      ensures Admits(traffic[m], p) <==> Opens(es[m], f)
      ensures Forgets(traffic[m], p) <==> Closes(es[m], f)
    {
      SameEvent(named, traffic[m], p);
    }
    if Admitted(traffic, k, p) {
      var j :| 0 <= j < k && Admits(traffic[j], p) && forall m | j < m < k :: !Forgets(traffic[m], p);
      assert Quiet(es, j + 1, k, f);
    }
    if Open(es, k, f) {
      var j :| 0 <= j < k && Opens(es[j], f) && Quiet(es, j + 1, k, f);
      assert Admits(traffic[j], p) && forall m | j < m < k :: !Forgets(traffic[m], p);
    }
  }

  lemma SameEvent(named: set<Byte>, t: Traffic, p: seq<Byte>)
    requires IsSegment(p)
    ensures Admits(t, p) <==> Opens(EventOf(named, t), KeyOf(p))
    ensures Forgets(t, p) <==> Closes(EventOf(named, t), KeyOf(p))
  {
    hide Observe, StartsWithHandshake, KeyOf, Content;
    EmptyIsNoHandshake();
    if t.Packet? {
      SeenExactly(named, t.bytes);
      if IsSegment(t.bytes) {
        SameKeyExactly(t.bytes, p);
      }
    }
  }
}
