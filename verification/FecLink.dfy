/** Sender and receiver together, over a lossy channel. */
module FecLink {
  import opened FecPacket
  import opened FecParity
  import opened FecEncoder
  import opened FecStream
  import opened FecDecoder
  import opened FecSafety
  import opened FecHistory
  import opened FecReturns
  import opened FecDelivery
  import opened Wrappers

  // ---------- The channel

  /** The event brings no acceptable datagram: nothing at all, a short one, a corrupt one. */
  predicate Idle(e: Event) {
    e.raw.Some? ==> !Parse(e.raw.value).Accepted?
  }

  /** Which wire packet each event brings, or -1; packets may be lost but arrive in order
      and are not repeated. */
  ghost predicate InOrder(events: seq<Event>, source: seq<int>, wire: seq<Packet>) {
    && |source| == |events|
    && (forall e :: 0 <= e < |events| ==> Brings(events[e], source[e], wire))
    && (forall d, e :: 0 <= d < e < |events| && source[d] >= 0 && source[e] >= 0 ==> source[d] < source[e])
  }

  predicate Brings(e: Event, i: int, wire: seq<Packet>) {
    if i < 0 then Idle(e) else i < |wire| && e.raw == Some(Datagram(wire[i]))
  }

  /** Every event brings some packet of the wire or nothing acceptable, in any order, any
      number of times. */
  ghost predicate AnyOrder(events: seq<Event>, wire: seq<Packet>) {
    forall e :: 0 <= e < |events| ==> BringsSome(events[e], wire)
  }

  ghost predicate BringsSome(e: Event, wire: seq<Packet>) {
    exists i :: Brings(e, i, wire)
  }

  lemma InOrderIsAny(events: seq<Event>, source: seq<int>, wire: seq<Packet>)
    requires InOrder(events, source, wire)
    ensures AnyOrder(events, wire)
  {
    hide Brings;
    forall e | 0 <= e < |events|
      ensures BringsSome(events[e], wire)
    {
      assert Brings(events[e], source[e], wire);
    }
  }

  /** Clock readings do not go back and each sweep visits every open group. */
  ghost predicate RegularClock(events: seq<Event>, timeout: real) {
    && (forall i, j :: 0 <= i <= j < |events| ==> events[i].now <= events[j].now)
    && forall n :: 0 <= n < |events| ==> VisitsAll(events, n, timeout)
  }

  /** The group's packets arrive within the timeout of the reception of its first one. */
  ghost predicate OnTime(events: seq<Event>, key: Key, timeout: real) {
    forall i, j :: 0 <= i <= j < |events| && IsArrival(events[j], key)
      ==> FirstWithin(events, key, i, events[j].now, timeout)
  }

  /** Group g of a lane has all its payloads. */
  ghost predicate Completed(ps: seq<Bytes>, lanes: nat, size: nat, key: Key)
    requires lanes > 0
  {
    key.lane < lanes && key.group * size + size <= |LaneHistory(ps, key.lane, lanes)|
  }

  /** The payloads of a completed group. */
  function Payloads(ps: seq<Bytes>, lanes: nat, size: nat, key: Key): seq<Bytes>
    requires lanes > 0
  {
    GroupOnWire(LaneHistory(ps, key.lane, lanes), key.group, size)
  }

  // ---------- Every arrival is genuine, so no sweep raises

  lemma BroughtArrival(ps: seq<Bytes>, lanes: nat, size: nat, e: Event, i: int)
    requires Sendable(ps, lanes, size) && Brings(e, i, Wire(ps, lanes, size)) && i >= 0
    ensures var p := Wire(ps, lanes, size)[i];
            && IsArrival(e, KeyOf(p))
            && (forall key :: IsArrival(e, key) ==> key == KeyOf(p))
            && Genuine(Parse(e.raw.value), Payloads(ps, lanes, size, KeyOf(p)))
            && Parse(e.raw.value)
               == Accepted(p.ptype, p.lane, p.laneGroup, p.groupSeq, p.groupSize, p.payload)
  {
    hide Wire, Parse, Datagram, Parity, GroupOnWire, Sendable;
    PositiveSizes(ps, lanes, size);
    PacketFits(ps, i, lanes, size);
    ParseDatagram(Wire(ps, lanes, size)[i]);
    WireContent(ps, i, lanes, size);
  }

  lemma AllGenuine(ps: seq<Bytes>, lanes: nat, size: nat, events: seq<Event>, key: Key)
    requires Sendable(ps, lanes, size) && AnyOrder(events, Wire(ps, lanes, size))
    ensures GenuineFor(events, key, Payloads(ps, lanes, size, key))
  {
    hide Wire, Parse, Genuine, Parity, Sendable;
    PositiveSizes(ps, lanes, size);
    PartSize(ps, lanes, size, key);
    forall i | 0 <= i < |events| && IsArrival(events[i], key)
      ensures Genuine(Parse(events[i].raw.value), Payloads(ps, lanes, size, key))
    {
      assert BringsSome(events[i], Wire(ps, lanes, size));
      var a :| Brings(events[i], a, Wire(ps, lanes, size));
      IdleIsNoArrival(events[i], key);
      BroughtArrival(ps, lanes, size, events[i], a);
    }
  }

  lemma IdleIsNoArrival(e: Event, key: Key)
    requires IsArrival(e, key)
    ensures !Idle(e)
  {
  }

  lemma {:induction false} SweepNeverRaises(s: State, order: seq<Key>, now: real, timeout: real)
    requires forall key :: key in s.groups ==> !TryRecover(s.groups[key]).IndexError?
    ensures !Sweep(s, order, now, timeout).raised
    decreases order
  {
    hide TryRecover;
    if order != [] {
      SweepNeverRaises(Settle(s, order[0], now, timeout).state, order[1..], now, timeout);
    }
  }

  /** No call raises on what one sender sent, whatever the order and number of arrivals. */
  lemma NeverRaises(ps: seq<Bytes>, lanes: nat, size: nat, events: seq<Event>, timeout: real, n: nat)
    requires Sendable(ps, lanes, size) && AnyOrder(events, Wire(ps, lanes, size)) && n < |events|
    ensures !RaisesAt(events, n, timeout)
  {
    hide Wire, Run, Receive, TryRecover, Sendable, AnyOrder, Honest, Inv, GenuineFor;
    var s, e := Run(events[..n], timeout), events[n];
    var r := Receive(s, e.raw, e.created);
    PositiveSizes(ps, lanes, size);
    forall key | key in r.groups
      ensures !TryRecover(r.groups[key]).IndexError?
    {
      var part := Payloads(ps, lanes, size, key);
      AllGenuine(ps, lanes, size, events, key);
      PositiveParts(ps, lanes, size, key);
      PrefixGenuine(events, n, key, part);
      RunHonest(events[..n], timeout, key, part);
      ExactlyOnce(events[..n], timeout);
      var h := HeardIn(events[..n], key);
      ReceiveHonest(s, e, key, part, h);
      HoldsNow(r, key, part, HeardNext(h, e, key));
      RecoverGenuine(r.groups[key], part, HeardNext(h, e, key));
    }
    SweepNeverRaises(r, e.order, e.now, timeout);
  }

  lemma PositiveParts(ps: seq<Bytes>, lanes: nat, size: nat, key: Key)
    requires Sendable(ps, lanes, size)
    ensures 0 < lanes && 0 < size < 256 && 0 < |Payloads(ps, lanes, size, key)| < 256
  {
  }

  lemma RunSweeps(ps: seq<Bytes>, lanes: nat, size: nat, events: seq<Event>, source: seq<int>, timeout: real)
    requires Sendable(ps, lanes, size) && InOrder(events, source, Wire(ps, lanes, size))
    requires RegularClock(events, timeout)
    ensures Sweeps(events, timeout)
  {
    hide Wire, Run, Receive, Sendable, InOrder, AnyOrder, Poll;
    PositiveSizes(ps, lanes, size);
    InOrderIsAny(events, source, Wire(ps, lanes, size));
    forall n | 0 <= n < |events|
      ensures SweptAt(events, n, timeout)
    {
      NeverRaises(ps, lanes, size, events, timeout, n);
      assert VisitsAll(events, n, timeout);
    }
  }

  // ---------- Which packets of a group survive

  /** Wire packet i reaches the receiver. */
  ghost predicate Survives(source: seq<int>, i: nat) {
    exists e :: 0 <= e < |source| && source[e] == i
  }

  /** At most one packet of the group is lost: all but possibly wire packet x survive. */
  ghost predicate AllButOneSurvive(source: seq<int>, wire: seq<Packet>, key: Key, x: int) {
    forall i :: 0 <= i < |wire| && KeyOf(wire[i]) == key && i != x ==> Survives(source, i)
  }

  /** The wire positions of the packets of a completed group. */
  lemma PositionOf(ps: seq<Bytes>, lanes: nat, size: nat, key: Key, s: Sent) returns (i: nat)
    requires Sendable(ps, lanes, size) && key.lane < lanes && Completed(ps, lanes, size, key)
    requires var part := Payloads(ps, lanes, size, key);
             s == SentParity(Parity(part)) || (s.SentData? && s.slot < size && s == SentData(s.slot, part[s.slot]))
    ensures i < |Wire(ps, lanes, size)| && KeyOf(Wire(ps, lanes, size)[i]) == key && Content(Wire(ps, lanes, size)[i]) == s
  {
    hide Wire, Parity, Select, LaneHistory, Sendable;
    PositiveSizes(ps, lanes, size);
    StreamOfGroup(ps, lanes, size, key);
    var part := GroupPart(LaneHistory(ps, key.lane, lanes), key.group, size);
    assert |part| == size && Payloads(ps, lanes, size, key) == part;
    var all := GroupPackets(part, size);
    if s.SentData? {
      assert all[s.slot] == s;
    } else {
      assert all[size] == s;
    }
    i := FromSelect(Wire(ps, lanes, size), key, s);
  }

  lemma {:induction false} HeardSlot(events: seq<Event>, key: Key, e: nat)
    requires e < |events| && IsArrival(events[e], key)
    ensures Parse(events[e].raw.value).ptype == TYPE_DATA
            ==> Parse(events[e].raw.value).groupSeq in HeardIn(events, key).slots
    ensures Parse(events[e].raw.value).ptype == TYPE_PARITY ==> HeardIn(events, key).parity
    decreases events
  {
    hide Parse;
    var n := |events| - 1;
    if e < n {
      HeardSlot(events[..n], key, e);
    }
  }

  /** A surviving packet of the group is heard. */
  lemma SurvivorHeard(ps: seq<Bytes>, lanes: nat, size: nat, events: seq<Event>, source: seq<int>, i: nat)
    requires Sendable(ps, lanes, size) && InOrder(events, source, Wire(ps, lanes, size))
    requires i < |Wire(ps, lanes, size)| && Survives(source, i)
    ensures var p := Wire(ps, lanes, size)[i]; var h := HeardIn(events, KeyOf(p));
            if p.ptype == TYPE_DATA then p.groupSeq in h.slots else h.parity
  {
    hide Wire, Parse, HeardIn, Parity, Sendable, Payloads, Genuine, IsArrival, Datagram, KeyOf, Idle;
    PositiveSizes(ps, lanes, size);
    var e :| 0 <= e < |source| && source[e] == i;
    PacketFits(ps, i, lanes, size);
    assert Brings(events[e], source[e], Wire(ps, lanes, size));
    BroughtArrival(ps, lanes, size, events[e], i);
    HeardSlot(events, KeyOf(Wire(ps, lanes, size)[i]), e);
  }

  /** With at most one packet of the group lost, enough of them are heard. */
  lemma EnoughHeard(ps: seq<Bytes>, lanes: nat, size: nat, events: seq<Event>, source: seq<int>, key: Key, x: int)
    requires Sendable(ps, lanes, size) && InOrder(events, source, Wire(ps, lanes, size))
    requires 0 < lanes && key.lane < lanes && Completed(ps, lanes, size, key)
    requires AllButOneSurvive(source, Wire(ps, lanes, size), key, x)
    ensures Count(HeardIn(events, key)) >= size
  {
    hide Wire, HeardIn, Parity, Sendable, Payloads, InOrder, Survives;
    PositiveSizes(ps, lanes, size);
    var part, h, wire := Payloads(ps, lanes, size, key), HeardIn(events, key), Wire(ps, lanes, size);
    PartSize(ps, lanes, size, key);
    forall j | 0 <= j < size
      ensures j in h.slots || (0 <= x < |wire| && Content(wire[x]) == SentData(j, part[j]))
    {
      var i := PositionOf(ps, lanes, size, key, SentData(j, part[j]));
      if i != x {
        SurvivorHeard(ps, lanes, size, events, source, i);
      }
    }
    var q := PositionOf(ps, lanes, size, key, SentParity(Parity(part)));
    PacketFits(ps, q, lanes, size);
    if q != x {
      SurvivorHeard(ps, lanes, size, events, source, q);
      var lost := if 0 <= x < |wire| && Content(wire[x]).SentData? then {Content(wire[x]).slot} else {};
      assert Upto(size) <= h.slots + lost;
      SubsetSize(Upto(size), h.slots + lost);
    } else {
      assert Upto(size) <= h.slots;
      SubsetSize(Upto(size), h.slots);
    }
  }

  lemma PartSize(ps: seq<Bytes>, lanes: nat, size: nat, key: Key)
    requires lanes > 0
    ensures |Payloads(ps, lanes, size, key)| == size
  {
  }

  /** In-order delivery brings the group's first surviving packet before any packet of a
      later group of its lane. */
  lemma InOrderOpens(ps: seq<Bytes>, lanes: nat, size: nat, events: seq<Event>, source: seq<int>, key: Key, e0: nat)
    requires Sendable(ps, lanes, size) && InOrder(events, source, Wire(ps, lanes, size))
    requires e0 < |events| && IsArrival(events[e0], key)
    ensures OpensInOrder(events, key)
  {
    hide Wire, IsArrival, Sendable, InOrder;
    forall i, group | 0 <= i < |events| && group > key.group && IsArrival(events[i], Key(key.lane, group))
      ensures exists j :: 0 <= j < i && IsArrival(events[j], key)
    {
      EarlierGroupFirst(ps, lanes, size, events, source, key, e0, i, group);
    }
  }

  lemma EarlierGroupFirst(ps: seq<Bytes>, lanes: nat, size: nat, events: seq<Event>, source: seq<int>, key: Key, e0: nat,
                          i: nat, group: nat)
    requires Sendable(ps, lanes, size) && InOrder(events, source, Wire(ps, lanes, size))
    requires e0 < |events| && IsArrival(events[e0], key)
    requires i < |events| && group > key.group && IsArrival(events[i], Key(key.lane, group))
    ensures e0 < i
  {
    hide *;
    PositiveSizes(ps, lanes, size);
    var wire := Wire(ps, lanes, size);
    BroughtInOrder(events, source, wire, i, Key(key.lane, group));
    BroughtInOrder(events, source, wire, e0, key);
    BroughtArrival(ps, lanes, size, events[i], source[i]);
    BroughtArrival(ps, lanes, size, events[e0], source[e0]);
    assert KeyOf(wire[source[i]]) == Key(key.lane, group) && KeyOf(wire[source[e0]]) == key;
    if source[i] <= source[e0] {
      KeyOfIs(wire[source[i]]);
      KeyOfIs(wire[source[e0]]);
      LaneInGroupOrder(ps, source[i], source[e0], lanes, size);
    }
    SourcesRise(events, source, wire, e0, i);
  }

  lemma KeyOfIs(p: Packet)
    ensures KeyOf(p) == Key(p.lane, p.laneGroup)
  {
  }

  lemma BroughtInOrder(events: seq<Event>, source: seq<int>, wire: seq<Packet>, i: nat, key: Key)
    requires InOrder(events, source, wire) && i < |events| && IsArrival(events[i], key)
    ensures |source| == |events| && Brings(events[i], source[i], wire) && 0 <= source[i] < |wire|
  {
    hide IsArrival;
    IdleIsNoArrival(events[i], key);
  }

  lemma SourcesRise(events: seq<Event>, source: seq<int>, wire: seq<Packet>, i: nat, j: nat)
    requires InOrder(events, source, wire) && i < |events| && j < |events| && 0 <= source[i] < source[j]
    ensures i < j
  {
  }

  lemma {:induction false} LastArrival(events: seq<Event>, key: Key, n: nat) returns (last: nat)
    requires n <= |events| && exists i :: 0 <= i < n && IsArrival(events[i], key)
    ensures last < n && IsArrival(events[last], key)
    ensures forall i :: last < i < n ==> !IsArrival(events[i], key)
    decreases n
  {
    hide IsArrival;
    if IsArrival(events[n - 1], key) {
      last := n - 1;
    } else {
      last := LastArrival(events, key, n - 1);
    }
  }

  // ---------- Main results

  /** What the receiver handed out for a group: one closing, complete. */
  ghost predicate HandedOutOnce(s: State, key: Key, part: seq<Bytes>) {
    exists i :: && 0 <= i < |s.log| && s.log[i].key == key && s.log[i].complete
                && Delivered(s.log[i].payloads, part)
                && forall j :: 0 <= j < |s.log| && s.log[j].key == key ==> j == i
  }

  /** MAIN, end to end: for every payload sequence, lane count, group size and loss pattern,
      with in-order delivery and no timeout before a completed group's last surviving
      packet, losing at most one of the group's packets never loses a payload: the receiver
      finalises the group once and hands out all its payloads, at most one of them stripped
      of trailing zeros. */
  lemma EndToEnd(ps: seq<Bytes>, lanes: nat, size: nat, events: seq<Event>, source: seq<int>, timeout: real,
                 key: Key, x: int)
    requires Sendable(ps, lanes, size) && InOrder(events, source, Wire(ps, lanes, size))
    requires RegularClock(events, timeout) && OnTime(events, key, timeout)
    requires 0 < lanes && key.lane < lanes && Completed(ps, lanes, size, key)
    requires AllButOneSurvive(source, Wire(ps, lanes, size), key, x)
    ensures HandedOutOnce(Run(events, timeout), key, Payloads(ps, lanes, size, key))
  {
    hide Wire, Run, HeardIn, Sendable, InOrder, Payloads, OpensInOrder, GenuineFor, IsArrival, AllButOneSurvive, Sweeps,
      FirstWithin;
    var part := Payloads(ps, lanes, size, key);
    PositiveParts(ps, lanes, size, key);
    PartSize(ps, lanes, size, key);
    InOrderIsAny(events, source, Wire(ps, lanes, size));
    AllGenuine(ps, lanes, size, events, key);
    EnoughHeard(ps, lanes, size, events, source, key, x);
    RunSweeps(ps, lanes, size, events, source, timeout);
    SilentUntilHeard(events, key, part);
    SilenceCounts();
    var last := LastArrival(events, key, |events|);
    InOrderOpens(ps, lanes, size, events, source, key, last);
    NothingMoreHeard(events, last + 1, key);
    DeliveredWhenEnough(events, timeout, key, part, last);
  }

  lemma SilenceCounts()
    ensures Count(SILENCE) == 0
  {
  }

  /** MAIN: payloads that are empty or end in a non-zero byte come out byte for byte. */
  lemma EndToEndExact(ps: seq<Bytes>, lanes: nat, size: nat, events: seq<Event>, source: seq<int>, timeout: real,
                      key: Key, x: int)
    requires Sendable(ps, lanes, size) && InOrder(events, source, Wire(ps, lanes, size))
    requires RegularClock(events, timeout) && OnTime(events, key, timeout)
    requires 0 < lanes && key.lane < lanes && Completed(ps, lanes, size, key)
    requires AllButOneSurvive(source, Wire(ps, lanes, size), key, x)
    requires forall p :: p in ps ==> NoTrailingZero(p)
    ensures HandedOutExactly(Run(events, timeout), key, Payloads(ps, lanes, size, key))
  {
    hide Wire, Run, Sendable, InOrder, RegularClock, OnTime, AllButOneSurvive, Payloads, NoTrailingZero, Delivered;
    EndToEnd(ps, lanes, size, events, source, timeout, key, x);
    var s, part := Run(events, timeout), Payloads(ps, lanes, size, key);
    var i :| && 0 <= i < |s.log| && s.log[i].key == key && s.log[i].complete && Delivered(s.log[i].payloads, part)
             && forall j :: 0 <= j < |s.log| && s.log[j].key == key ==> j == i;
    PayloadsKeepTails(ps, lanes, size, key);
    DeliveredExactly(s.log[i].payloads, part);
  }

  /** One closing, complete, with exactly the group's payloads. */
  ghost predicate HandedOutExactly(s: State, key: Key, part: seq<Bytes>) {
    exists i :: && 0 <= i < |s.log| && s.log[i].key == key && s.log[i].complete && IsGroup(s.log[i].payloads, part)
                && forall j :: 0 <= j < |s.log| && s.log[j].key == key ==> j == i
  }

  predicate IsGroup(m: map<nat, Bytes>, part: seq<Bytes>) {
    && (forall j :: j in m ==> j < |part|)
    && forall j :: 0 <= j < |part| ==> j in m && m[j] == part[j]
  }

  lemma DeliveredExactly(m: map<nat, Bytes>, part: seq<Bytes>)
    requires Delivered(m, part) && forall p :: p in part ==> NoTrailingZero(p)
    ensures IsGroup(m, part)
  {
    hide StripZeros, NoTrailingZero;
    var x: nat :| DeliveredBut(m, part, x);
    if x < |part| {
      StripKeepsExactly(part[x]);
    }
  }

  lemma PayloadsKeepTails(ps: seq<Bytes>, lanes: nat, size: nat, key: Key)
    requires lanes > 0 && forall p :: p in ps ==> NoTrailingZero(p)
    ensures forall p :: p in Payloads(ps, lanes, size, key) ==> NoTrailingZero(p)
  {
    HistoryMembers(ps, key.lane, lanes);
  }

  lemma {:induction false} HistoryMembers(ps: seq<Bytes>, lane: nat, lanes: nat)
    requires lanes > 0
    ensures forall p :: p in LaneHistory(ps, lane, lanes) ==> p in ps
    decreases ps
  {
    if ps != [] {
      HistoryMembers(ps[..|ps| - 1], lane, lanes);
    }
  }

  // ---------- Bursts

  /** The wire positions [from, from + length) are lost. */
  predicate InBurst(i: int, from: nat, length: nat) {
    from <= i < from + length
  }

  /** MAIN: a run of at most `lanes` consecutive wire packets costs any lane, and so any
      group, at most one DATA packet. */
  lemma BurstCostsOneData(ps: seq<Bytes>, lanes: nat, size: nat, from: nat, length: nat, i: nat, j: nat)
    requires Sendable(ps, lanes, size) && length <= lanes
    requires i < |Wire(ps, lanes, size)| && j < |Wire(ps, lanes, size)|
    requires InBurst(i, from, length) && InBurst(j, from, length)
    requires Wire(ps, lanes, size)[i].ptype == TYPE_DATA && Wire(ps, lanes, size)[j].ptype == TYPE_DATA
    requires Wire(ps, lanes, size)[i].lane == Wire(ps, lanes, size)[j].lane
    ensures i == j
  {
    hide Wire;
    PositiveSizes(ps, lanes, size);
    if i < j {
      DataSpacing(ps, i, j, lanes, size);
    } else if j < i {
      DataSpacing(ps, j, i, lanes, size);
    }
  }

  /** Position f holds the group's last DATA and position f + 1 its parity. */
  ghost predicate IsFinal(ps: seq<Bytes>, lanes: nat, size: nat, key: Key, f: nat)
    requires lanes > 0 && size > 0
  {
    var wire := Wire(ps, lanes, size);
    && f + 1 < |wire| && KeyOf(wire[f]) == key && KeyOf(wire[f + 1]) == key
    && wire[f].ptype == TYPE_DATA && wire[f].groupSeq == size - 1 && wire[f + 1].ptype == TYPE_PARITY
  }

  lemma FinalIsFollowed(ps: seq<Bytes>, lanes: nat, size: nat, key: Key, f: nat)
    requires Sendable(ps, lanes, size) && f < |Wire(ps, lanes, size)| && KeyOf(Wire(ps, lanes, size)[f]) == key
    requires Wire(ps, lanes, size)[f].ptype == TYPE_DATA && Wire(ps, lanes, size)[f].groupSeq == size - 1
    ensures IsFinal(ps, lanes, size, key, f)
  {
    hide Wire, Parity, LaneHistory, Sendable;
    PositiveSizes(ps, lanes, size);
    var n := Owner(ps, f, lanes, size);
    BlockAt(ps, n, lanes, size);
    var history := LaneHistory(ps[..n], n % lanes, lanes);
    Quotients.NextQuotient(|history|, size);
    HistoriesGrow(ps[..n], ps[n], lanes);
    assert ps[..n + 1] == ps[..n] + [ps[n]];
    PacketGroup(ps, n, f, lanes, size);
    PacketGroup(ps, n, f + 1, lanes, size);
  }

  /** Every completed group has a final DATA with its parity behind it. */
  lemma FinalExists(ps: seq<Bytes>, lanes: nat, size: nat, key: Key)
    requires Sendable(ps, lanes, size) && 0 < lanes && 0 < size && Completed(ps, lanes, size, key)
    ensures exists f: nat :: IsFinal(ps, lanes, size, key, f)
  {
    hide Wire, Parity, LaneHistory, Sendable, Payloads, IsFinal;
    PartSize(ps, lanes, size, key);
    var part := Payloads(ps, lanes, size, key);
    var f := PositionOf(ps, lanes, size, key, SentData(size - 1, part[size - 1]));
    PacketFits(ps, f, lanes, size);
    FinalIsFollowed(ps, lanes, size, key, f);
  }

  /** A group has one parity packet on the wire, after its final DATA. */
  lemma ParityIsFinal(ps: seq<Bytes>, lanes: nat, size: nat, key: Key, f: nat, q: nat)
    requires Sendable(ps, lanes, size) && q < |Wire(ps, lanes, size)| && 0 < lanes && 0 < size
    requires IsFinal(ps, lanes, size, key, f)
    requires KeyOf(Wire(ps, lanes, size)[q]) == key && Wire(ps, lanes, size)[q].ptype == TYPE_PARITY
    ensures q == f + 1
  {
    hide Wire, Parity, LaneHistory;
    var m := Owner(ps, f + 1, lanes, size);
    var n := Owner(ps, q, lanes, size);
    BlockAt(ps, m, lanes, size);
    BlockAt(ps, n, lanes, size);
    PacketGroup(ps, m, f + 1, lanes, size);
    PacketGroup(ps, n, q, lanes, size);
    if m < n {
      EndsOnce(ps, m, n, lanes, size);
    } else if n < m {
      EndsOnce(ps, n, m, lanes, size);
    }
  }

  /** Two submissions that complete groups of one lane complete different groups. */
  lemma EndsOnce(ps: seq<Bytes>, m: nat, n: nat, lanes: nat, size: nat)
    requires lanes > 0 && size > 0 && m < n < |ps| && m % lanes == n % lanes
    requires Completes(ps, m, lanes, size)
    ensures |LaneHistory(ps[..m], m % lanes, lanes)| / size < |LaneHistory(ps[..n], n % lanes, lanes)| / size
  {
    hide LaneHistory;
    var lane := m % lanes;
    assert ps[..m + 1] == ps[..m] + [ps[m]];
    HistoriesGrow(ps[..m], ps[m], lanes);
    HistoryPrefix(ps, m + 1, n, lane, lanes);
    Quotients.NextQuotient(|LaneHistory(ps[..m], lane, lanes)|, size);
    Quotients.QuotientMonotone(|LaneHistory(ps[..m + 1], lane, lanes)|, |LaneHistory(ps[..n], lane, lanes)|, size);
  }

  /** The burst takes two packets of the group only if it takes its final DATA and parity. */
  lemma BurstTakesTwo(ps: seq<Bytes>, lanes: nat, size: nat, key: Key, f: nat, from: nat, length: nat, i: nat, j: nat)
    requires Sendable(ps, lanes, size) && length <= lanes && 0 < lanes && 0 < size
    requires IsFinal(ps, lanes, size, key, f)
    requires i < j < |Wire(ps, lanes, size)| && InBurst(i, from, length) && InBurst(j, from, length)
    requires KeyOf(Wire(ps, lanes, size)[i]) == key && KeyOf(Wire(ps, lanes, size)[j]) == key
    ensures i == f && j == f + 1
  {
    hide Wire;
    var wire := Wire(ps, lanes, size);
    PacketFits(ps, i, lanes, size);
    PacketFits(ps, j, lanes, size);
    if wire[i].ptype == TYPE_PARITY {
      ParityIsFinal(ps, lanes, size, key, f, i);
      if wire[j].ptype == TYPE_PARITY {
        ParityIsFinal(ps, lanes, size, key, f, j);
      } else {
        DataAfterFinal(ps, lanes, size, key, f, j);
      }
    } else if wire[j].ptype == TYPE_PARITY {
      ParityIsFinal(ps, lanes, size, key, f, j);
      if i < f {
        DataSpacing(ps, i, f, lanes, size);
      }
    } else {
      BurstCostsOneData(ps, lanes, size, from, length, i, j);
    }
  }

  /** No DATA packet of the group follows its parity. */
  lemma DataAfterFinal(ps: seq<Bytes>, lanes: nat, size: nat, key: Key, f: nat, d: nat)
    requires Sendable(ps, lanes, size) && 0 < lanes && 0 < size && IsFinal(ps, lanes, size, key, f)
    requires d < |Wire(ps, lanes, size)| && KeyOf(Wire(ps, lanes, size)[d]) == key
    requires Wire(ps, lanes, size)[d].ptype == TYPE_DATA
    ensures d <= f
  {
    hide Wire, Parity, LaneHistory;
    var m := Owner(ps, f + 1, lanes, size);
    var n := Owner(ps, d, lanes, size);
    BlockAt(ps, m, lanes, size);
    BlockAt(ps, n, lanes, size);
    PacketGroup(ps, m, f + 1, lanes, size);
    PacketGroup(ps, n, d, lanes, size);
    if m < n {
      EndsOnce(ps, m, n, lanes, size);
    } else {
      DataPosGap(ps, n, m, lanes, size);
    }
  }

  /** The channel loses exactly one burst. */
  ghost predicate LosesBurst(source: seq<int>, wire: seq<Packet>, from: nat, length: nat) {
    forall i :: 0 <= i < |wire| ==> (Survives(source, i) <==> !InBurst(i, from, length))
  }

  /** A DATA packet of the group with this slot survived. */
  ghost predicate SlotSurvives(source: seq<int>, wire: seq<Packet>, key: Key, j: nat) {
    exists i :: 0 <= i < |wire| && Survives(source, i) && KeyOf(wire[i]) == key && wire[i].ptype == TYPE_DATA
                && wire[i].groupSeq == j
  }

  ghost predicate ParitySurvives(source: seq<int>, wire: seq<Packet>, key: Key) {
    exists i :: 0 <= i < |wire| && Survives(source, i) && KeyOf(wire[i]) == key && wire[i].ptype == TYPE_PARITY
  }

  ghost predicate OnlySurvivors(h: Heard, source: seq<int>, wire: seq<Packet>, key: Key) {
    (forall j :: j in h.slots ==> SlotSurvives(source, wire, key, j)) && (h.parity ==> ParitySurvives(source, wire, key))
  }

  /** What an arrival adds, by the packet that brought it. */
  lemma HeardNextOnly(h: Heard, e: Event, source: seq<int>, wire: seq<Packet>, i: nat, key: Key)
    requires IsArrival(e, key) && i < |wire| && Survives(source, i) && KeyOf(wire[i]) == key
    requires var a := Parse(e.raw.value); a.ptype == wire[i].ptype && a.groupSeq == wire[i].groupSeq
    requires OnlySurvivors(h, source, wire, key)
    ensures OnlySurvivors(HeardNext(h, e, key), source, wire, key)
  {
    assert IsArrival(e, key) && Parse(e.raw.value).Accepted?;
    hide Parse, Survives, KeyOf, IsArrival, HeardNext, OnlySurvivors;
    assert wire[i].ptype == TYPE_DATA ==> SlotSurvives(source, wire, key, wire[i].groupSeq);
    assert wire[i].ptype == TYPE_PARITY ==> ParitySurvives(source, wire, key);
    AddsSurvivor(h, e, source, wire, wire[i].groupSeq, wire[i].ptype, key);
  }

  lemma AddsSurvivor(h: Heard, e: Event, source: seq<int>, wire: seq<Packet>, slot: nat, ptype: nat, key: Key)
    requires IsArrival(e, key) && Parse(e.raw.value).ptype == ptype && Parse(e.raw.value).groupSeq == slot
    requires ptype == TYPE_DATA ==> SlotSurvives(source, wire, key, slot)
    requires ptype == TYPE_PARITY ==> ParitySurvives(source, wire, key)
    requires OnlySurvivors(h, source, wire, key)
    ensures OnlySurvivors(HeardNext(h, e, key), source, wire, key)
  {
    hide Parse, SlotSurvives, ParitySurvives;
  }

  lemma HeardNextFromWire(ps: seq<Bytes>, lanes: nat, size: nat, h: Heard, e: Event, source: seq<int>, i: int, key: Key)
    requires Sendable(ps, lanes, size) && Brings(e, i, Wire(ps, lanes, size))
    requires i >= 0 ==> Survives(source, i)
    requires OnlySurvivors(h, source, Wire(ps, lanes, size), key)
    ensures OnlySurvivors(HeardNext(h, e, key), source, Wire(ps, lanes, size), key)
  {
    hide Wire, Parse, Parity, Sendable, Payloads, Genuine, Survives, OnlySurvivors, IsArrival, KeyOf;
    PositiveSizes(ps, lanes, size);
    if IsArrival(e, key) {
      IdleIsNoArrival(e, key);
      BroughtArrival(ps, lanes, size, e, i);
      HeardNextOnly(h, e, source, Wire(ps, lanes, size), i, key);
    }
  }

  lemma {:induction false} HeardFromWire(ps: seq<Bytes>, lanes: nat, size: nat, events: seq<Event>, source: seq<int>,
                                         key: Key, n: nat)
    requires Sendable(ps, lanes, size) && InOrder(events, source, Wire(ps, lanes, size)) && n <= |events|
    ensures OnlySurvivors(HeardIn(events[..n], key), source, Wire(ps, lanes, size), key)
    decreases n
  {
    PositiveSizes(ps, lanes, size);
    if n == 0 {
      hide Wire, Sendable, InOrder;
    } else {
      hide Wire, HeardNext, Sendable, OnlySurvivors;
      assert events[..n][..n - 1] == events[..n - 1];
      HeardFromWire(ps, lanes, size, events, source, key, n - 1);
      assert Brings(events[n - 1], source[n - 1], Wire(ps, lanes, size));
      assert source[n - 1] >= 0 ==> Survives(source, source[n - 1]);
      HeardNextFromWire(ps, lanes, size, HeardIn(events[..n - 1], key), events[n - 1], source, source[n - 1], key);
    }
  }

  /** Losing a group's final DATA and its parity leaves too little to finish it. */
  lemma FatalLossIsFatal(ps: seq<Bytes>, lanes: nat, size: nat, events: seq<Event>, source: seq<int>, timeout: real,
                         key: Key, f: nat)
    requires Sendable(ps, lanes, size) && InOrder(events, source, Wire(ps, lanes, size))
    requires 0 < lanes && 0 < size && key.lane < lanes && IsFinal(ps, lanes, size, key, f)
    requires !Survives(source, f) && !Survives(source, f + 1)
    ensures !Finished(Run(events, timeout), key)
  {
    hide *;
    InOrderIsAny(events, source, Wire(ps, lanes, size));
    AllGenuine(ps, lanes, size, events, key);
    PartSize(ps, lanes, size, key);
    TooLittleHeard(ps, lanes, size, events, source, key, f);
    FinishedNeeds(events, timeout, key, Payloads(ps, lanes, size, key));
  }

  lemma FinishedNeeds(events: seq<Event>, timeout: real, key: Key, part: seq<Bytes>)
    requires GenuineFor(events, key, part) && Count(HeardIn(events, key)) < |part|
    ensures !Finished(Run(events, timeout), key)
  {
    hide Run, HeardIn, GenuineFor, HonestClosing, Delivered;
    if Finished(Run(events, timeout), key) {
      var s := Run(events, timeout);
      var i :| 0 <= i < |s.log| && s.log[i].key == key && s.log[i].complete;
      Integrity(events, timeout, key, part, i);
    }
  }

  lemma TooLittleHeard(ps: seq<Bytes>, lanes: nat, size: nat, events: seq<Event>, source: seq<int>, key: Key, f: nat)
    requires Sendable(ps, lanes, size) && InOrder(events, source, Wire(ps, lanes, size))
    requires 0 < lanes && 0 < size && key.lane < lanes && IsFinal(ps, lanes, size, key, f)
    requires !Survives(source, f) && !Survives(source, f + 1)
    ensures Count(HeardIn(events, key)) < size
  {
    hide Wire, Run, HeardIn, Sendable, Payloads, Survives, Parity, InOrder;
    var wire, h := Wire(ps, lanes, size), HeardIn(events, key);
    assert events[..|events|] == events;
    HeardFromWire(ps, lanes, size, events, source, key, |events|);
    if h.parity {
      assert ParitySurvives(source, wire, key);
      var i :| 0 <= i < |wire| && Survives(source, i) && KeyOf(wire[i]) == key && wire[i].ptype == TYPE_PARITY;
      ParityIsFinal(ps, lanes, size, key, f, i);
    }
    forall j | j in h.slots
      ensures j in Upto(size - 1)
    {
      assert SlotSurvives(source, wire, key, j);
      var i :| 0 <= i < |wire| && Survives(source, i) && KeyOf(wire[i]) == key
               && wire[i].ptype == TYPE_DATA && wire[i].groupSeq == j;
      WireContent(ps, i, lanes, size);
      if j == size - 1 {
        FinalIsFollowed(ps, lanes, size, key, i);
        ParityIsFinal(ps, lanes, size, key, f, i + 1);
      }
    }
    SubsetSize(h.slots, Upto(size - 1));
  }

  /** MAIN, exact burst tolerance: after the loss of any run of at most `lanes` consecutive
      wire packets, a completed group is handed out whole if and only if the run does not
      cover both its final DATA and the parity behind it. */
  lemma ExactBurstTolerance(ps: seq<Bytes>, lanes: nat, size: nat, events: seq<Event>, source: seq<int>, timeout: real,
                            key: Key, f: nat, from: nat, length: nat)
    requires Sendable(ps, lanes, size) && InOrder(events, source, Wire(ps, lanes, size))
    requires RegularClock(events, timeout) && OnTime(events, key, timeout)
    requires 0 < lanes && 0 < size && key.lane < lanes && Completed(ps, lanes, size, key)
    requires IsFinal(ps, lanes, size, key, f)
    requires length <= lanes && LosesBurst(source, Wire(ps, lanes, size), from, length)
    ensures HandedOutOnce(Run(events, timeout), key, Payloads(ps, lanes, size, key))
            <==> !(InBurst(f, from, length) && InBurst(f + 1, from, length))
  {
    hide Wire, Run, Sendable, Payloads, Survives, InOrder, RegularClock, OnTime, Delivered;
    var wire := Wire(ps, lanes, size);
    if InBurst(f, from, length) && InBurst(f + 1, from, length) {
      FatalLossIsFatal(ps, lanes, size, events, source, timeout, key, f);
    } else {
      var x := if exists i :: 0 <= i < |wire| && KeyOf(wire[i]) == key && InBurst(i, from, length)
               then var i :| 0 <= i < |wire| && KeyOf(wire[i]) == key && InBurst(i, from, length); i
               else -1;
      forall i | 0 <= i < |wire| && KeyOf(wire[i]) == key && i != x
        ensures Survives(source, i)
      {
        if InBurst(i, from, length) {
          if i < x {
            BurstTakesTwo(ps, lanes, size, key, f, from, length, i, x);
          } else {
            BurstTakesTwo(ps, lanes, size, key, f, from, length, x, i);
          }
        }
      }
      EndToEnd(ps, lanes, size, events, source, timeout, key, x);
    }
  }

  // ---------- The counters, for a sender's traffic

  /** Whatever a sender's packets meet on the way -- loss, duplication, reordering, corruption
      that the checksum notices -- no call raises and the receiver's counters agree with the
      group sizes and with what its calls return. */
  lemma SenderCountersAgree(ps: seq<Bytes>, lanes: nat, size: nat, events: seq<Event>, timeout: real)
    requires Sendable(ps, lanes, size) && AnyOrder(events, Wire(ps, lanes, size))
    ensures NoneRaises(events, timeout)
    ensures var s := Run(events, timeout);
            && s.stats.delivered + s.stats.recovered == |AllReturned(events, timeout)|
            && s.stats.delivered + s.stats.recovered + s.stats.lost == TotalSize(s.log)
  {
    hide Wire, Sendable, Run, AllReturned, TotalSize, RaisesAt, ClosesAt;
    PositiveSizes(ps, lanes, size);
    forall n | 0 <= n < |events|
      ensures !RaisesAt(events, n, timeout)
    {
      NeverRaises(ps, lanes, size, events, timeout, n);
    }
    forall i, j | 0 <= i <= j < |events|
      ensures IndexFits(events[i], events[j])
    {
      assert BringsSome(events[i], Wire(ps, lanes, size)) && BringsSome(events[j], Wire(ps, lanes, size));
      var a :| Brings(events[i], a, Wire(ps, lanes, size));
      var b :| Brings(events[j], b, Wire(ps, lanes, size));
      BothFit(ps, lanes, size, events[i], events[j], a, b);
    }
    CountersAgree(events, timeout);
  }

  lemma BothFit(ps: seq<Bytes>, lanes: nat, size: nat, first: Event, later: Event, a: int, b: int)
    requires Sendable(ps, lanes, size) && Brings(first, a, Wire(ps, lanes, size)) && Brings(later, b, Wire(ps, lanes, size))
    ensures IndexFits(first, later)
  {
    hide Wire, Parse, Sendable, Payloads, Genuine, Datagram;
    PositiveSizes(ps, lanes, size);
    if a >= 0 && b >= 0 {
      BroughtArrival(ps, lanes, size, first, a);
      BroughtArrival(ps, lanes, size, later, b);
      PacketFits(ps, a, lanes, size);
      WireContent(ps, b, lanes, size);
    }
  }
}
