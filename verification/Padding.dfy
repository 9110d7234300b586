/** Bytes beyond the declared datagram: when they matter to the filter and when they cannot. */
module Padding {
  import opened Wire
  import opened EbpfHeaders
  import opened HandshakeGrammar
  import opened Flows
  import opened Filter
  import opened SliceHeaders

  function Max(a: nat, b: nat): nat {
    if a < b then b else a
  }

  /** Where the declared datagram ends; an IP header is always read whole. */
  function Declared(packet: seq<Byte>): nat
    requires |packet| >= ETH_LEN + IPV4_LEN
  {
    Max(ETH_LEN + IPV4_LEN, ETH_LEN + TotalLength(packet))
  }

  /** All header checks that come before the ports are read pass. */
  predicate ReachesPorts(packet: seq<Byte>)
    requires |packet| >= ETH_LEN + IPV4_LEN
  {
    && EtherType(packet) == ETHERTYPE_IPV4
    && Version(packet) == 4
    && Protocol(packet) == IP_PROTOCOL_TCP
    && IPV4_LEN <= Ihl(packet) <= TotalLength(packet) <= MAX_TOTAL
    && !IsFragment(packet)
  }

  /** The declared datagram has room for a TCP header. */
  predicate HasRoom(packet: seq<Byte>)
    requires |packet| >= ETH_LEN + IPV4_LEN
  {
    Ihl(packet) + TCP_LEN <= TotalLength(packet)
  }

  /** Two packets that agree on everything the first one declares. */
  predicate SameDeclared(p: seq<Byte>, q: seq<Byte>) {
    && |p| >= ETH_LEN + IPV4_LEN
    && Declared(p) <= |p| && Declared(p) <= |q|
    && p[..Declared(p)] == q[..Declared(p)]
  }

  /** The same verdict, and the same table afterwards. */
  predicate SameOutcome(table: set<FlowKey>, a: Event, b: Event)
    requires a.Arrive? && b.Arrive?
  {
    Flows.Verdict(table, a) == Flows.Verdict(table, b) && Step(table, a) == Step(table, b)
  }

  /**
    Padding is invisible: packets that agree on the declared datagram look the same to the filter,
    unless the datagram is too short for the ports the program reads from it.
   */
  lemma PaddingInvisible(named: set<Byte>, p: seq<Byte>, q: seq<Byte>)
    requires SameDeclared(p, q)
    requires ReachesPorts(p) ==> HasRoom(p)
    ensures Observe(named, p) == Observe(named, q)
    ensures forall table, stored ::
              SameOutcome(table, Arrive(Observe(named, p), stored), Arrive(Observe(named, q), stored))
  {
    hide StartsWithHandshake;
    SameHeaders(named, p, q);
    if Ipv4TryParse(named, p).Ok? && TcpTryParse(p).Ok? {
      var tcp := TcpTryParse(p).value;
      PayloadWindow(named, p);
      SameWindow(p, q, Declared(p), tcp.payloadOffset, tcp.payloadLen);
    }
  }

  lemma SameWindow(p: seq<Byte>, q: seq<Byte>, n: nat, offset: nat, len: nat)
    requires n <= |p| && n <= |q| && p[..n] == q[..n]
    requires offset + len <= n
    ensures Window(p, offset, len) == Window(q, offset, len)
  {
    assert p[offset..][..len] == p[..n][offset..offset + len];
    assert q[offset..][..len] == q[..n][offset..offset + len];
  }

  lemma SameHeaders(named: set<Byte>, p: seq<Byte>, q: seq<Byte>)
    requires SameDeclared(p, q)
    requires ReachesPorts(p) ==> HasRoom(p)
    ensures CheckHeader(p) == CheckHeader(q)
    ensures CheckHeader(p).Ok? ==> Ipv4TryParse(named, p) == Ipv4TryParse(named, q)
    ensures CheckHeader(p).Ok? && Ipv4TryParse(named, p).Ok? ==> TcpTryParse(p) == TcpTryParse(q)
  {
    hide HeaderFlags, Be16, Be32;
    SameFixed(p, q);
    if ReachesPorts(p) {
      SameTcp(p, q);
    }
  }

  lemma SameFixed(p: seq<Byte>, q: seq<Byte>)
    requires SameDeclared(p, q)
    ensures |q| >= ETH_LEN + IPV4_LEN
    ensures EtherType(p) == EtherType(q) && Version(p) == Version(q) && Ihl(p) == Ihl(q)
    ensures TotalLength(p) == TotalLength(q) && IsFragment(p) == IsFragment(q) && Protocol(p) == Protocol(q)
    ensures p[26..30] == q[26..30] && p[30..34] == q[30..34]
  {
    forall k | 0 <= k < 34 ensures p[k] == q[k] {
      assert p[k] == p[..Declared(p)][k] == q[..Declared(p)][k] == q[k];
    }
  }

  lemma SameTcp(p: seq<Byte>, q: seq<Byte>)
    requires SameDeclared(p, q) && HasRoom(p)
    ensures var o := ETH_LEN + Ihl(p);
            && o + TCP_LEN <= |p| && o + TCP_LEN <= |q|
            && p[o] == q[o] && p[o + 1] == q[o + 1] && p[o + 2] == q[o + 2] && p[o + 3] == q[o + 3]
            && p[o + 12] == q[o + 12] && p[o + 13] == q[o + 13]
  {
    var o := ETH_LEN + Ihl(p);
    forall k | o <= k < o + TCP_LEN ensures p[k] == q[k] {
      assert p[k] == p[..Declared(p)][k] == q[..Declared(p)][k] == q[k];
    }
  }

  /** A datagram too short for a TCP header aborts on its own, and never does once padding stands in for one. */
  lemma PaddingReadAsPorts(named: set<Byte>, packet: seq<Byte>, pad: seq<Byte>)
    requires |packet| >= ETH_LEN + IPV4_LEN && |packet| == Declared(packet)
    requires ReachesPorts(packet) && !HasRoom(packet)
    requires |pad| >= TCP_LEN
    ensures Observe(named, packet) == Settled(Aborted)
    ensures Observe(named, packet + pad) in {Settled(Pass), Settled(Drop)}
  {
    var padded := packet + pad;
    assert packet == padded[..Declared(packet)];
    SameFixed(packet, padded);
  }

  /** Exactly when padding cannot matter: the ports are not reached, or lie in the declared datagram. */
  lemma PaddingIrrelevantExactly(named: set<Byte>, packet: seq<Byte>)
    requires |packet| >= ETH_LEN + IPV4_LEN && |packet| == Declared(packet)
    ensures (forall a, b :: Observe(named, packet + a) == Observe(named, packet + b))
       <==> (ReachesPorts(packet) ==> HasRoom(packet))
  {
    if ReachesPorts(packet) ==> HasRoom(packet) {
      forall a, b ensures Observe(named, packet + a) == Observe(named, packet + b) {
        hide Observe, ReachesPorts, HasRoom;
        assert packet[..Declared(packet)] == (packet + a)[..Declared(packet)] == (packet + b)[..Declared(packet)];
        PaddingInvisible(named, packet, packet + a);
        PaddingInvisible(named, packet, packet + b);
      }
    } else {
      hide Observe, ReachesPorts, HasRoom;
      var pad: seq<Byte> := seq(TCP_LEN, _ => 0);
      PaddingReadAsPorts(named, packet, pad);
      assert packet + [] == packet;
      assert Observe(named, packet + []) != Observe(named, packet + pad);
    }
  }

  /** The same traffic, packet by packet, up to bytes nobody declared. */
  predicate SameTraffic(s: seq<Traffic>, t: seq<Traffic>) {
    && |s| == |t|
    && forall i | 0 <= i < |s| :: SameUpToPadding(s[i], t[i])
  }

  predicate SameUpToPadding(a: Traffic, b: Traffic) {
    || a == b
    || (&& a.Packet? && b.Packet? && a.stored == b.stored
        && SameDeclared(a.bytes, b.bytes) && (ReachesPorts(a.bytes) ==> HasRoom(a.bytes)))
  }

  /** Whole runs cannot be told apart by their padding: the same events, so the same tables and verdicts. */
  lemma PaddingInvisibleInRuns(named: set<Byte>, s: seq<Traffic>, t: seq<Traffic>)
    requires SameTraffic(s, t)
    ensures Events(named, s) == Events(named, t)
  {
    hide Observe;
    forall i | 0 <= i < |s| ensures EventOf(named, s[i]) == EventOf(named, t[i]) {
      assert SameUpToPadding(s[i], t[i]);
      if s[i] != t[i] {
        PaddingInvisible(named, s[i].bytes, t[i].bytes);
      }
    }
  }
}
