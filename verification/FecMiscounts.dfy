/** Datagrams that make the receiver's counters disagree with the group sizes or with what it
    returns: an index beyond its group's size, and a parity shorter than a payload
    (gcs/tools/fec_core.py:45-48, 123-127). */
module FecMiscounts {
  import opened FecPacket
  import opened FecParity
  import opened FecDecoder
  import opened FecSafety
  import opened FecReturns
  import opened Wrappers

  const GROUP := Key(0, 0)

  /** A packet of group 0 of lane 0, which states group size 1. */
  function PacketOf(ptype: nat, slot: nat): Packet {
    Packet(ptype, 0, 0, 0, slot, 1, [1])
  }

  /** Its arrival at time 0, followed by a sweep of that group. */
  function Arriving(p: Packet): Event {
    Event(Some(Datagram(p)), 0.0, 0.0, [GROUP])
  }

  const STRAY := Arriving(PacketOf(TYPE_DATA, 5))
  const FIRST := Arriving(PacketOf(TYPE_DATA, 0))
  const PARITY := Arriving(PacketOf(TYPE_PARITY, 0))

  lemma Parsed(ptype: nat, slot: nat)
    requires ptype < 256 && slot < 256
    ensures Parse(Arriving(PacketOf(ptype, slot)).raw.value) == Accepted(ptype, 0, 0, slot, 1, [1])
  {
    hide Parse, Datagram;
    ParseDatagram(PacketOf(ptype, slot));
  }

  lemma OneCall(s: State, e: Event, timeout: real)
    requires e.order == [GROUP]
    ensures Poll(s, e, timeout) == Settle(Receive(s, e.raw, e.created), GROUP, e.now, timeout)
  {
    hide Settle, Receive;
    var r := Settle(Receive(s, e.raw, e.created), GROUP, e.now, timeout);
    assert e.order[1..] == [] && Sweep(r.state, [], e.now, timeout) == Swept(r.state, false);
  }

  const AFTER_STRAY := Group(1, map[5 := [1]], None, 0.0)

  /** After the stray packet the group is open and lacks index 0. */
  lemma AfterStray(timeout: real)
    requires timeout >= 0.0
    ensures var s := Run([STRAY], timeout);
            && s.groups == map[GROUP := AFTER_STRAY] && s.high == map[] && s.log == []
            && s.stats == Stats(1, 0, 0, 0, 0, 0, 0) && !RaisesAt([STRAY], 0, timeout)
  {
    hide Parse, Datagram, TryRecover;
    assert [STRAY][..0] == [] && Run([], timeout) == INITIAL;
    Parsed(TYPE_DATA, 5);
    OneCall(INITIAL, STRAY, timeout);
    LacksFirst();
  }

  lemma LacksFirst()
    ensures TryRecover(AFTER_STRAY) == Incomplete
  {
    assert 0 in Missing(AFTER_STRAY);
  }

  /** Closing the group that the stray packet opened. */
  lemma CloseAlone(s: State, payloads: map<nat, Bytes>)
    requires GROUP in s.groups && s.high == map[] && s.log == []
    ensures var g := s.groups[GROUP]; var s' := Close(s, GROUP, payloads, true);
            && s'.log == [Closing(GROUP, g.size, |g.data|, true, payloads)]
            && s'.stats == s.stats.(delivered := s.stats.delivered + |g.data|,
                                    recovered := s.stats.recovered + if |g.data| < g.size then g.size - |g.data| else 0)
            && TotalSize(s'.log) == g.size && TotalOutput(s'.log) == |payloads|
  {
    hide TotalSize, TotalOutput;
    TotalsOfOne(Closing(GROUP, s.groups[GROUP].size, |s.groups[GROUP].data|, true, payloads));
  }

  lemma TotalsOfOne(c: Closing)
    ensures TotalSize([c]) == c.size && TotalOutput([c]) == |c.payloads|
  {
    assert [c][..0] == [];
  }

  /** A payload with index 5 and then one with index 0, both in groups of size 1: the group is
      complete, two payloads are delivered, and its size is 1. */
  lemma StrayOverfills(timeout: real)
    requires timeout >= 0.0
    ensures var s := Run([STRAY, FIRST], timeout);
            && s.stats.delivered == 2 && s.stats.recovered == 0 && s.stats.lost == 0
            && TotalSize(s.log) == 1
  {
    hide Parse, Datagram, TryRecover, Close, TotalSize, TotalOutput;
    AfterStray(timeout);
    assert [STRAY, FIRST][..1] == [STRAY];
    var s := Run([STRAY], timeout);
    Parsed(TYPE_DATA, 0);
    OneCall(s, FIRST, timeout);
    var r := Receive(s, FIRST.raw, FIRST.created);
    var g := AFTER_STRAY.(data := map[5 := [1], 0 := [1]]);
    assert r.groups[GROUP] == g && r.log == [] && r.high == map[];
    HasFirst(g);
    TwoKeys();
    CloseAlone(r, g.data);
  }

  lemma HasFirst(g: Group)
    requires g.size == 1 && 0 in g.data
    ensures TryRecover(g) == Complete(g.data)
  {
    assert Missing(g) == {};
  }

  lemma TwoKeys()
    ensures var m: map<nat, Bytes> := map[5 := [1], 0 := [1]]; |m| == 2
  {
    var m: map<nat, Bytes> := map[5 := [1], 0 := [1]];
    assert m.Keys == {0, 5};
  }

  /** A payload with index 5 and then the parity, both in groups of size 1: no call raises,
      two payloads are returned, and one is counted. */
  lemma StrayIsUncounted(timeout: real)
    requires timeout >= 0.0
    ensures var s := Run([STRAY, PARITY], timeout);
            && s.stats.delivered == 1 && s.stats.recovered == 0 && s.stats.lost == 0 && TotalSize(s.log) == 1
            && NoneRaises([STRAY, PARITY], timeout) && |AllReturned([STRAY, PARITY], timeout)| == 2
  {
    hide Parse, Datagram, TryRecover, Close, TotalSize, TotalOutput, Output;
    AfterStray(timeout);
    var events := [STRAY, PARITY];
    assert events[..1] == [STRAY] && events[..0] == [] && [STRAY][..0] == [];
    var s := Run([STRAY], timeout);
    Parsed(TYPE_PARITY, 0);
    OneCall(s, PARITY, timeout);
    var r := Receive(s, PARITY.raw, PARITY.created);
    var g := AFTER_STRAY.(parity := Some([1]));
    assert r.groups[GROUP] == g && r.log == [] && r.high == map[];
    Rebuilds(g);
    CloseAlone(r, TryRecover(g).payloads);
    assert RaisesAt(events, 0, timeout) <==> RaisesAt([STRAY], 0, timeout);
    assert !RaisesAt(events, 1, timeout);
    ReturnedIsOutput(events, timeout);
    ExactlyOnce(events, timeout);
    OutputSize(Run(events, timeout).log);
  }

  lemma Rebuilds(g: Group)
    requires g == AFTER_STRAY.(parity := Some([1]))
    ensures TryRecover(g).Complete? && |TryRecover(g).payloads| == 2 && |g.data| == 1
  {
    hide StripZeros, Rebuilt;
    assert Missing(g) == {0};
    assert g.data.Keys == {5};
    RecoveryAdds(g);
  }

  // ---------- A call that raises

  const OTHER := Key(1, 0)

  /** At time 0: DATA 0 of two, one byte, in lane 0. */
  const HELD := Event(Some(Datagram(Packet(TYPE_DATA, 0, 0, 0, 0, 2, [1]))), 0.0, 0.0, [GROUP])

  /** At time 0: DATA 0 of two, two bytes, in lane 1. */
  const LONG := Event(Some(Datagram(Packet(TYPE_DATA, 1, 1, 0, 0, 2, [1, 1]))), 0.0, 0.0, [GROUP, OTHER])

  /** Past the timeout: a parity of one byte in lane 1. */
  function Short(timeout: real): Event {
    Event(Some(Datagram(Packet(TYPE_PARITY, 2, 1, 0, 0, 2, [1]))), timeout + 1.0, timeout + 1.0, [GROUP, OTHER])
  }

  lemma AllParsed(timeout: real)
    ensures Parse(HELD.raw.value) == Accepted(TYPE_DATA, 0, 0, 0, 2, [1])
    ensures Parse(LONG.raw.value) == Accepted(TYPE_DATA, 1, 0, 0, 2, [1, 1])
    ensures Parse(Short(timeout).raw.value) == Accepted(TYPE_PARITY, 1, 0, 0, 2, [1])
  {
    hide Parse, Datagram;
    ParseDatagram(Packet(TYPE_DATA, 0, 0, 0, 0, 2, [1]));
    ParseDatagram(Packet(TYPE_DATA, 1, 1, 0, 0, 2, [1, 1]));
    ParseDatagram(Packet(TYPE_PARITY, 2, 1, 0, 0, 2, [1]));
  }

  lemma TwoGroups(s: State, e: Event, timeout: real)
    requires e.order == [GROUP, OTHER]
    ensures var r := Settle(Receive(s, e.raw, e.created), GROUP, e.now, timeout);
            Poll(s, e, timeout) == if r.raised then r else Settle(r.state, OTHER, e.now, timeout)
  {
    hide Settle, Receive;
    var r := Settle(Receive(s, e.raw, e.created), GROUP, e.now, timeout);
    assert e.order[1..] == [OTHER] && [OTHER][1..] == [];
    SweepStep(r.state, [OTHER], 0, e.now, timeout);
    SweepEnd(Settle(r.state, OTHER, e.now, timeout).state, [OTHER], e.now, timeout);
  }

  const HALF := Group(2, map[0 := [1]], None, 0.0)
  const LONG_HALF := Group(2, map[0 := [1, 1]], None, 0.0)

  lemma LacksSecond(g: Group)
    requires g.size == 2 && g.data.Keys == {0}
    ensures Missing(g) == {1} && (g.parity.None? ==> TryRecover(g) == Incomplete)
  {
  }

  lemma AfterTwo(timeout: real)
    requires timeout >= 0.0
    ensures Run([HELD, LONG], timeout)
         == State(map[GROUP := HALF, OTHER := LONG_HALF], map[], Stats(2, 0, 0, 0, 0, 0, 0), [])
    ensures NoneRaises([HELD, LONG], timeout)
  {
    hide Parse, Datagram, TryRecover;
    AllParsed(timeout);
    LacksSecond(HALF);
    LacksSecond(LONG_HALF);
    var events := [HELD, LONG];
    assert events[..1] == [HELD] && events[..0] == [] && [HELD][..0] == [] && Run([], timeout) == INITIAL;
    OneCall(INITIAL, HELD, timeout);
    var s := Run([HELD], timeout);
    assert s.groups == map[GROUP := HALF];
    TwoGroups(s, LONG, timeout);
    assert !RaisesAt(events, 0, timeout) && !RaisesAt(events, 1, timeout);
  }

  /** The third call closes the late group and raises at the other. */
  lemma ShortRaises(timeout: real)
    requires timeout >= 0.0
    ensures var r := Poll(Run([HELD, LONG], timeout), Short(timeout), timeout);
            r.raised && r.state.stats.delivered == 1 && r.state.stats.recovered == 0
  {
    hide Parse, Datagram, TryRecover, Jams, Run, Missing;
    AfterTwo(timeout);
    AllParsed(timeout);
    LacksSecond(HALF);
    TwoGroups(Run([HELD, LONG], timeout), Short(timeout), timeout);
    LongJams();
  }

  lemma LongJams()
    ensures TryRecover(LONG_HALF.(parity := Some([1]))).IndexError?
  {
    LacksSecond(LONG_HALF.(parity := Some([1])));
    assert 0 in LONG_HALF.data && |LONG_HALF.data[0]| == 2;
  }

  lemma LossIsWellIndexed(timeout: real)
    ensures WellIndexed([HELD, LONG, Short(timeout)])
  {
    hide Parse, Datagram;
    AllParsed(timeout);
  }

  /** A payload of lane 0 whose group is late, and in lane 1 a parity shorter than the payload
      before it: the call that meets both closes the first group, counts its payload, raises
      at the second, and returns nothing.  All indices lie inside their groups. */
  lemma RaisingCallLoses(timeout: real)
    requires timeout >= 0.0
    ensures var events := [HELD, LONG, Short(timeout)];
            && WellIndexed(events) && LosesAt(events, 2, timeout)
            && AllBooked(events, timeout) == 1 && AllReturned(events, timeout) == multiset{}
  {
    hide Parse, Datagram, Poll, Closes, Run, WellIndexed, Output, NeverCloses, Met, Short;
    var events := [HELD, LONG, Short(timeout)];
    var s := Run([HELD, LONG], timeout);
    AfterTwo(timeout);
    ShortRaises(timeout);
    EventAdded([HELD, LONG], Short(timeout), timeout);
    assert [HELD, LONG] + [Short(timeout)] == events && events[..2] == [HELD, LONG] && events[..3] == events;
    ReturnedIsOutput([HELD, LONG], timeout);
    OutputNothing();
    LossIsWellIndexed(timeout);
    WellIndexedIsSound(Astray, events, timeout);
    NeverClosesStep(Astray, events, timeout);
    CallCount(events, 2, timeout);
  }
}
