/**
  The allow table over whole runs. A run interleaves packets with losses: the kernel may evict any
  entries between packets, and an insert may fail, so every result holds for every eviction policy.
 */
module Flows {
  import opened Wire

  /** One TCP connection as it arrives at the server. */
  datatype FlowKey = FlowKey(sourceAddress: nat, destinationAddress: nat, sourcePort: nat, destinationPort: nat)

  /** All that the table logic looks at: `ends` is FIN or RST, `handshake` the recogniser's verdict. */
  datatype Segment = Segment(flow: FlowKey, syn: bool, ends: bool, empty: bool, handshake: bool)

  /** A packet is either settled by its headers, or a segment of some flow to the server. */
  datatype Observation = Settled(action: Action) | Seen(segment: Segment)

  /** `stored` says whether the kernel had room, should this packet lead to an insert. */
  datatype Event = Arrive(seen: Observation, stored: bool) | Evict(flows: set<FlowKey>)

  // ---- One packet ------------------------------------------------------------

  function AfterSyn(table: set<FlowKey>, s: Segment): set<FlowKey> {
    if s.syn then table - {s.flow} else table
  }

  function Rule(table: set<FlowKey>, s: Segment): Action {
    if s.empty || s.flow in AfterSyn(table, s) || s.handshake then Pass else Drop
  }

  function Update(table: set<FlowKey>, s: Segment, stored: bool): set<FlowKey> {
    var current := AfterSyn(table, s);
    var judged := if !s.empty && s.flow !in current && s.handshake && stored then current + {s.flow} else current;
    if s.ends then judged - {s.flow} else judged
  }

  function Step(table: set<FlowKey>, e: Event): set<FlowKey> {
    match e
    case Arrive(Seen(s), stored) => Update(table, s, stored)
    case Arrive(Settled(_), _) => table
    case Evict(flows) => table - flows
  }

  function Verdict(table: set<FlowKey>, e: Event): Action
    requires e.Arrive?
  {
    match e.seen
    case Settled(action) => action
    case Seen(s) => Rule(table, s)
  }

  // ---- Runs --------------------------------------------------------------------

  /** The table before event `k`. */
  function At(table: set<FlowKey>, es: seq<Event>, k: nat): set<FlowKey>
    requires k <= |es|
  {
    if k == 0 then table else Step(At(table, es, k - 1), es[k - 1])
  }

  predicate IsPacketOf(e: Event, f: FlowKey) {
    e.Arrive? && e.seen.Seen? && e.seen.segment.flow == f
  }

  /** A handshake that puts `f` in the table to stay. */
  predicate Opens(e: Event, f: FlowKey) {
    IsPacketOf(e, f) && var s := e.seen.segment; s.handshake && !s.empty && !s.ends && e.stored
  }

  /** Anything that takes `f` out of the table. */
  predicate Closes(e: Event, f: FlowKey) {
    || (IsPacketOf(e, f) && (e.seen.segment.syn || e.seen.segment.ends))
    || (e.Evict? && f in e.flows)
  }

  ghost predicate Quiet(es: seq<Event>, i: nat, k: nat, f: FlowKey)
    requires k <= |es|
  {
    forall m | i <= m < k :: !Closes(es[m], f)
  }

  /** Some handshake of `f` opened it, and nothing closed it since. */
  ghost predicate Open(es: seq<Event>, k: nat, f: FlowKey)
    requires k <= |es|
  {
    exists j :: 0 <= j < k && Opens(es[j], f) && Quiet(es, j + 1, k, f)
  }

  lemma StepMembership(table: set<FlowKey>, e: Event, f: FlowKey)
    ensures f in Step(table, e) <==> Opens(e, f) || (f in table && !Closes(e, f))
  {
  }

  /** The table is a function of the history: a flow is in it exactly when it is open, or was there all along. */
  lemma {:induction false} MembershipExactly(table: set<FlowKey>, es: seq<Event>, k: nat, f: FlowKey)
    requires k <= |es|
    ensures f in At(table, es, k) <==> Open(es, k, f) || (f in table && Quiet(es, 0, k, f))
  {
    if k > 0 {
      MembershipExactly(table, es, k - 1, f);
      StepMembership(At(table, es, k - 1), es[k - 1], f);
      OpenStep(es, k, f);
    }
  }

  lemma OpenStep(es: seq<Event>, k: nat, f: FlowKey)
    requires 0 < k <= |es|
    ensures Open(es, k, f) <==> Opens(es[k - 1], f) || (Open(es, k - 1, f) && !Closes(es[k - 1], f))
  {
    if Opens(es[k - 1], f) {
      assert Quiet(es, k, k, f);
    } else if Open(es, k - 1, f) && !Closes(es[k - 1], f) {
      var j :| 0 <= j < k - 1 && Opens(es[j], f) && Quiet(es, j + 1, k - 1, f);
      assert Quiet(es, j + 1, k, f);
    }
  }

  /** Every verdict is a function of the history too. */
  lemma VerdictExactly(es: seq<Event>, k: nat, f: FlowKey)
    requires k < |es| && IsPacketOf(es[k], f)
    ensures var s := es[k].seen.segment;
            Verdict(At({}, es, k), es[k]) == if s.empty || s.handshake || (!s.syn && Open(es, k, f)) then Pass else Drop
  {
    MembershipExactly({}, es, k, f);
  }

  // ---- After a rejection -----------------------------------------------------------

  /** A packet of `f` with data in it. */
  predicate CarriesData(e: Event, f: FlowKey) {
    IsPacketOf(e, f) && !e.seen.segment.empty
  }

  ghost predicate NoHandshake(es: seq<Event>, j: nat, k: nat, f: FlowKey)
    requires k <= |es|
  {
    forall m | j <= m < k && CarriesData(es[m], f) :: !es[m].seen.segment.handshake
  }

  ghost predicate AllDropped(table: set<FlowKey>, es: seq<Event>, j: nat, k: nat, f: FlowKey)
    requires k <= |es|
  {
    forall m | j <= m < k && CarriesData(es[m], f) :: Verdict(At(table, es, m), es[m]) == Drop
  }

  /** A flow that is not in the table stays out until its next handshake. */
  lemma {:induction false} StaysOut(table: set<FlowKey>, es: seq<Event>, j: nat, m: nat, f: FlowKey)
    requires j <= m <= |es|
    requires f !in At(table, es, j)
    requires NoHandshake(es, j, m, f)
    ensures f !in At(table, es, m)
  {
    if j < m {
      StaysOut(table, es, j, m - 1, f);
      StepMembership(At(table, es, m - 1), es[m - 1], f);
    }
  }

  /**
    While a flow is not in the table, never seen, evicted or closed, all its data is dropped for as long
    as, and no longer than, none of it is a valid handshake.
   */
  lemma AbsentExactlyUntilHandshake(table: set<FlowKey>, es: seq<Event>, j: nat, k: nat, f: FlowKey)
    requires j <= k <= |es|
    requires f !in At(table, es, j)
    ensures AllDropped(table, es, j, k, f) <==> NoHandshake(es, j, k, f)
  {
    hide At;
    if NoHandshake(es, j, k, f) {
      forall m | j <= m < k && CarriesData(es[m], f) ensures Verdict(At(table, es, m), es[m]) == Drop {
        StaysOut(table, es, j, m, f);
      }
    }
  }

  /**
    In particular after a rejection: a connection that opens with garbage is blocked until it sends a
    valid handshake, and not for good.
   */
  lemma BlockedExactlyUntilHandshake(table: set<FlowKey>, es: seq<Event>, j: nat, k: nat, f: FlowKey)
    requires j < k <= |es|
    requires IsPacketOf(es[j], f) && Verdict(At(table, es, j), es[j]) == Drop
    ensures AllDropped(table, es, j + 1, k, f) <==> NoHandshake(es, j + 1, k, f)
  {
    StepMembership(At(table, es, j), es[j], f);
    AbsentExactlyUntilHandshake(table, es, j + 1, k, f);
  }

  // ---- Safety --------------------------------------------------------------------

  /** No SYN of `f` after event `j` up to `k`, and no FIN or RST of `f` from `j` on before `k`. */
  ghost predicate SameEpoch(es: seq<Event>, j: nat, k: nat, f: FlowKey)
    requires j <= k < |es|
  {
    forall m | j <= m <= k && IsPacketOf(es[m], f) ::
      (j < m ==> !es[m].seen.segment.syn) && (m < k ==> !es[m].seen.segment.ends)
  }

  /** Event `j` carries data of `f`, and the data is let through. */
  ghost predicate PassesData(es: seq<Event>, j: nat, f: FlowKey)
    requires j < |es|
  {
    IsPacketOf(es[j], f) && !es[j].seen.segment.empty && Verdict(At({}, es, j), es[j]) == Pass
  }

  ghost predicate PassesHandshake(es: seq<Event>, j: nat, f: FlowKey)
    requires j < |es|
  {
    PassesData(es, j, f) && es[j].seen.segment.handshake
  }

  /**
    No data of a connection reaches the server before a valid handshake of that same connection,
    whatever is evicted and whatever other flows do.
   */
  lemma DataFollowsHandshake(es: seq<Event>, k: nat, f: FlowKey)
    requires k < |es| && PassesData(es, k, f)
    ensures exists j :: 0 <= j <= k && PassesHandshake(es, j, f) && SameEpoch(es, j, k, f)
  {
    VerdictExactly(es, k, f);
    if es[k].seen.segment.handshake {
      assert PassesHandshake(es, k, f) && SameEpoch(es, k, k, f);
    } else {
      var j :| 0 <= j < k && Opens(es[j], f) && Quiet(es, j + 1, k, f);
      assert PassesHandshake(es, j, f);
      forall m | j <= m <= k && IsPacketOf(es[m], f)
        ensures (j < m ==> !es[m].seen.segment.syn) && (m < k ==> !es[m].seen.segment.ends)
      {
        assert j < m < k ==> !Closes(es[m], f);
      }
      assert SameEpoch(es, j, k, f);
    }
  }

  /** In every epoch of a flow, the first data let through is a valid handshake. */
  lemma FirstPassedIsHandshake(es: seq<Event>, k: nat, f: FlowKey)
    requires k < |es| && PassesData(es, k, f)
    requires forall j | 0 <= j < k && SameEpoch(es, j, k, f) :: !PassesData(es, j, f)
    ensures es[k].seen.segment.handshake
  {
    DataFollowsHandshake(es, k, f);
  }

  // ---- Delivery ------------------------------------------------------------------

  /**
    Once a handshake has opened a flow, everything of it passes, payload whatever it may be, up to and
    including the packet that ends it, as long as nothing closes it in between.
   */
  lemma Delivery(table: set<FlowKey>, es: seq<Event>, j: nat, k: nat, f: FlowKey)
    requires j < k < |es|
    requires Opens(es[j], f) && Quiet(es, j + 1, k, f)
    requires IsPacketOf(es[k], f) && !es[k].seen.segment.syn
    ensures Verdict(At(table, es, k), es[k]) == Pass
    ensures f in At(table, es, k + 1) <==> !es[k].seen.segment.ends
  {
    MembershipExactly(table, es, k, f);
    StepMembership(At(table, es, k), es[k], f);
  }

  // ---- Simulation by a table that loses less ----------------------------------------

  /** The same packets, with no more evicted and no fewer inserts succeeding. */
  ghost predicate LosesNoMore(ideal: seq<Event>, es: seq<Event>) {
    && |ideal| == |es|
    && forall i | 0 <= i < |es| :: EventLosesNoMore(ideal[i], es[i])
  }

  predicate EventLosesNoMore(ideal: Event, e: Event) {
    match e
    case Arrive(seen, stored) => ideal.Arrive? && ideal.seen == seen && (stored ==> ideal.stored)
    case Evict(flows) => ideal.Evict? && ideal.flows <= flows
  }

  /** A table of unlimited size: nothing is evicted and every insert succeeds. */
  function Unbounded(es: seq<Event>): (ideal: seq<Event>)
    ensures LosesNoMore(ideal, es)
    ensures forall i | 0 <= i < |es| :: ideal[i].Evict? ==> ideal[i].flows == {}
    ensures forall i | 0 <= i < |es| :: ideal[i].Arrive? ==> ideal[i].stored
  {
    seq(|es|, i requires 0 <= i < |es| => if es[i].Arrive? then Arrive(es[i].seen, true) else Evict({}))
  }

  /** Losing less never holds less. */
  lemma {:induction false} TablesNested(t: set<FlowKey>, u: set<FlowKey>, es: seq<Event>, ideal: seq<Event>, k: nat)
    requires t <= u && LosesNoMore(ideal, es) && k <= |es|
    ensures At(t, es, k) <= At(u, ideal, k)
  {
    if k > 0 {
      TablesNested(t, u, es, ideal, k - 1);
      assert EventLosesNoMore(ideal[k - 1], es[k - 1]);
    }
  }

  /**
    Simulation: the real table stays within the ideal one, and where their verdicts differ the real one
    drops what the ideal one passes. Losses never let anything through.
   */
  lemma Simulation(t: set<FlowKey>, u: set<FlowKey>, es: seq<Event>, ideal: seq<Event>, k: nat)
    requires t <= u && LosesNoMore(ideal, es)
    requires k < |es| && es[k].Arrive?
    ensures At(t, es, k) <= At(u, ideal, k)
    ensures ideal[k].Arrive?
    ensures var actual, best := Verdict(At(t, es, k), es[k]), Verdict(At(u, ideal, k), ideal[k]);
            actual == best || (actual == Drop && best == Pass)
  {
    assert EventLosesNoMore(ideal[k], es[k]);
    TablesNested(t, u, es, ideal, k);
  }

  /** The kernel lost `f`: evicted it, or had no room for its handshake. */
  predicate Loses(e: Event, f: FlowKey) {
    || (e.Evict? && f in e.flows)
    || (IsPacketOf(e, f) && e.seen.segment.handshake && !e.stored)
  }

  /**
    A packet an unlimited table would have passed is dropped only because its own flow was lost since the
    handshake that opened it there: `i` is that handshake, `j` the loss.
   */
  lemma OnlyOwnLossesDrop(es: seq<Event>, k: nat, f: FlowKey) returns (i: nat, j: nat)
    requires k < |es| && IsPacketOf(es[k], f)
    requires Verdict(At({}, es, k), es[k]) != Verdict(At({}, Unbounded(es), k), es[k])
    ensures i <= j < k
    ensures Opens(Unbounded(es)[i], f) && Quiet(Unbounded(es), i + 1, k, f)
    ensures Loses(es[j], f)
  {
    var ideal := Unbounded(es);
    TablesNested({}, {}, es, ideal, k);
    MembershipExactly({}, es, k, f);
    MembershipExactly({}, ideal, k, f);
    assert Open(ideal, k, f) && !Open(es, k, f);
    i, j := LostSince(es, ideal, k, f);
  }

  /** A flow open in the run that loses less and not in the other was lost since it opened. */
  lemma LostSince(es: seq<Event>, ideal: seq<Event>, k: nat, f: FlowKey) returns (i: nat, j: nat)
    requires LosesNoMore(ideal, es) && k <= |es|
    requires Open(ideal, k, f) && !Open(es, k, f)
    ensures i <= j < k
    ensures Opens(ideal[i], f) && Quiet(ideal, i + 1, k, f)
    ensures Loses(es[j], f)
  {
    i :| 0 <= i < k && Opens(ideal[i], f) && Quiet(ideal, i + 1, k, f);
    assert EventLosesNoMore(ideal[i], es[i]);
    if es[i].stored {
      assert !Quiet(es, i + 1, k, f);
      j :| i + 1 <= j < k && Closes(es[j], f);
      assert EventLosesNoMore(ideal[j], es[j]);
      assert !Closes(ideal[j], f);
    } else {
      j := i;
    }
  }

  // ---- Isolation ------------------------------------------------------------------

  predicate Concerns(e: Event, f: FlowKey) {
    IsPacketOf(e, f) || (e.Evict? && f in e.flows)
  }

  /** The part of an event that is about `f`. */
  function Share(e: Event, f: FlowKey): Event {
    if e.Evict? then Evict({f}) else e
  }

  /** The run as `f` alone would see it. */
  function Project(es: seq<Event>, k: nat, f: FlowKey): seq<Event>
    requires k <= |es|
  {
    if k == 0 then []
    else Project(es, k - 1, f) + if Concerns(es[k - 1], f) then [Share(es[k - 1], f)] else []
  }

  /** The verdicts on `f`'s packets, in order. */
  function Verdicts(table: set<FlowKey>, es: seq<Event>, k: nat, f: FlowKey): seq<Action>
    requires k <= |es|
  {
    if k == 0 then []
    else Verdicts(table, es, k - 1, f)
         + if IsPacketOf(es[k - 1], f) then [Verdict(At(table, es, k - 1), es[k - 1])] else []
  }

  lemma {:induction false} PrefixRun(table: set<FlowKey>, es: seq<Event>, more: seq<Event>, k: nat, f: FlowKey)
    requires k <= |es|
    ensures At(table, es + more, k) == At(table, es, k)
    ensures Verdicts(table, es + more, k, f) == Verdicts(table, es, k, f)
  {
    if k > 0 {
      PrefixRun(table, es, more, k - 1, f);
      assert (es + more)[k - 1] == es[k - 1];
    }
  }

  /** Flows do not interfere: membership and verdicts of `f` are those of the run with everyone else removed. */
  lemma {:induction false} Isolation(t: set<FlowKey>, u: set<FlowKey>, es: seq<Event>, k: nat, f: FlowKey)
    requires k <= |es| && (f in t <==> f in u)
    ensures var own := Project(es, k, f);
            && (f in At(t, es, k) <==> f in At(u, own, |own|))
            && Verdicts(t, es, k, f) == Verdicts(u, own, |own|, f)
  {
    if k > 0 {
      var e, before := es[k - 1], Project(es, k - 1, f);
      Isolation(t, u, es, k - 1, f);
      StepMembership(At(t, es, k - 1), e, f);
      if Concerns(e, f) {
        var own := before + [Share(e, f)];
        PrefixRun(u, before, [Share(e, f)], |before|, f);
        StepMembership(At(u, before, |before|), Share(e, f), f);
        assert own[|own| - 1] == Share(e, f);
      } else {
        assert Project(es, k, f) == before;
      }
    }
  }
}
