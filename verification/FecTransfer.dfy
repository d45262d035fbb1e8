/** The sender object, a lossy channel and the receiver object put together: what the
    receiver's calls return. */
module FecTransfer {
  import opened FecPacket
  import opened FecParity
  import opened FecEncoder
  import opened FecStream
  import opened FecDecoder
  import opened FecReturns
  import opened FecLink
  import opened FecRoundTrip
  import opened Wrappers

  /** A receiver call: the wire packet it finds, or -1, and its clock readings. */
  datatype Slot = Slot(source: int, created: real, now: real)

  /** The channel loses packets but neither repeats nor reorders them, and the clock does not
      go back. */
  predicate Channel(slots: seq<Slot>, wireLength: nat) {
    && (forall i :: 0 <= i < |slots| ==> slots[i].source < wireLength)
    && (forall i, j :: 0 <= i < j < |slots| && slots[i].source >= 0 && slots[j].source >= 0
                       ==> slots[i].source < slots[j].source)
    && (forall i, j :: 0 <= i <= j < |slots| ==> slots[i].now <= slots[j].now)
  }

  function Sources(slots: seq<Slot>): (r: seq<int>)
    ensures |r| == |slots| && forall i :: 0 <= i < |r| ==> r[i] == slots[i].source
  {
    seq(|slots|, i requires 0 <= i < |slots| => slots[i].source)
  }

  /** What the receiver's calls meet. */
  function Calls(slots: seq<Slot>, sent: seq<Bytes>): (calls: seq<Call>)
    requires forall i :: 0 <= i < |slots| ==> slots[i].source < |sent|
    ensures |calls| == |slots|
  {
    seq(|slots|, i requires 0 <= i < |slots| =>
      Call(if slots[i].source < 0 then None else Some(sent[slots[i].source]), slots[i].created, slots[i].now))
  }

  lemma EventsInOrder(slots: seq<Slot>, wire: seq<Packet>, events: seq<Event>)
    requires Channel(slots, |wire|) && Happens(Calls(slots, Datagrams(wire)), events)
    ensures InOrder(events, Sources(slots)[..|events|], wire)
  {
    hide Datagram, Parse;
    var calls, source := Calls(slots, Datagrams(wire)), Sources(slots)[..|events|];
    forall e | 0 <= e < |events|
      ensures Brings(events[e], source[e], wire)
    {
      assert Call(events[e].raw, events[e].created, events[e].now) == calls[e];
    }
  }

  lemma ClockIsRegular(slots: seq<Slot>, sent: seq<Bytes>, events: seq<Event>, timeout: real)
    requires Channel(slots, |sent|) && Happens(Calls(slots, sent), events)
    requires forall n :: 0 <= n < |events| ==> VisitsAll(events, n, timeout)
    ensures RegularClock(events, timeout)
  {
    hide VisitsAll;
    var calls := Calls(slots, sent);
    forall i, j | 0 <= i <= j < |events|
      ensures events[i].now <= events[j].now
    {
      assert Call(events[i].raw, events[i].created, events[i].now) == calls[i];
      assert Call(events[j].raw, events[j].created, events[j].now) == calls[j];
    }
  }

  // ---------- A group's payloads among those returned

  lemma {:induction false} BagInOutput(log: seq<Closing>, i: nat)
    requires i < |log|
    ensures Bag(log[i].payloads, 256) <= Output(log)
    decreases |log|
  {
    hide Bag;
    if i < |log| - 1 {
      BagInOutput(log[..|log| - 1], i);
    }
  }

  /** A completed group that lost at most one packet and met no timeout is handed out. */
  lemma GroupReturned(ps: seq<Bytes>, lanes: nat, size: nat, events: seq<Event>, source: seq<int>, timeout: real,
                      key: Key, x: int)
    requires Sendable(ps, lanes, size) && InOrder(events, source, Wire(ps, lanes, size))
    requires RegularClock(events, timeout) && OnTime(events, key, timeout)
    requires 0 < lanes && key.lane < lanes && FecLink.Completed(ps, lanes, size, key)
    requires AllButOneSurvive(source, Wire(ps, lanes, size), key, x)
    requires forall p :: p in ps ==> NoTrailingZero(p)
    ensures multiset(Payloads(ps, lanes, size, key)) <= Output(Run(events, timeout).log)
  {
    hide Wire, Run, Sendable, InOrder, RegularClock, OnTime, AllButOneSurvive, Payloads, NoTrailingZero, Bag, Output,
      IsGroup;
    EndToEndExact(ps, lanes, size, events, source, timeout, key, x);
    var s, part := Run(events, timeout), Payloads(ps, lanes, size, key);
    var i :| 0 <= i < |s.log| && s.log[i].key == key && IsGroup(s.log[i].payloads, part);
    PositiveParts(ps, lanes, size, key);
    BagOfGroup(s.log[i].payloads, part, 256);
    assert part[..|part|] == part;
    BagInOutput(s.log, i);
  }

  /** MAIN: sender object, channel and receiver object together.  No call raises, and the
      payloads returned are those of the groups the receiver closed; with payloads that are
      empty or end in a non-zero byte, they include byte for byte every completed group that
      lost at most one packet and met no timeout. */
  method Transfer(ps: seq<Bytes>, laneCount: nat, size: nat, slots: seq<Slot>, timeout: real)
    returns (out: seq<Bytes>, raised: bool, ghost events: seq<Event>)
    requires Sendable(ps, laneCount, size) && Channel(slots, |Wire(ps, laneCount, size)|)
    ensures !raised && multiset(out) == AllReturned(events, timeout) == Output(Run(events, timeout).log)
    ensures InOrder(events, Sources(slots), Wire(ps, laneCount, size)) && RegularClock(events, timeout)
    ensures (forall p :: p in ps ==> NoTrailingZero(p)) ==>
              forall key, x :: && FecLink.Completed(ps, laneCount, size, key) && OnTime(events, key, timeout)
                               && AllButOneSurvive(Sources(slots), Wire(ps, laneCount, size), key, x)
                ==> multiset(Payloads(ps, laneCount, size, key)) <= multiset(out)
    ensures AllSafe(ps, laneCount, size, events, Sources(slots), timeout) ==> multiset(out) == multiset(ps)
  {
    hide Wire, Run, Sendable, InOrder, RegularClock, OnTime, AllButOneSurvive, Payloads, NoTrailingZero, Output, VisitsAll,
      Channel, Happens, RaisesAt, AllSafe, AllReturned;
    PositiveSizes(ps, laneCount, size);
    ghost var wire := Wire(ps, laneCount, size);
    ShortPayloads(ps, laneCount, size);
    var sent := SendAll(ps, laneCount, size);
    SlotsInRange(slots, |wire|);
    var calls := Calls(slots, sent);
    out, raised, events := PollAll(calls, timeout);
    EventsInOrder(slots, wire, events);
    ClockIsRegular(slots, sent, events, timeout);
    HappensFirst(calls, events);
    NothingRaises(ps, laneCount, size, events, Sources(slots)[..|events|], timeout);
    assert events != [] ==> !RaisesAt(events, |events| - 1, timeout);
    ReturnedIsOutput(events, timeout);
    assert Sources(slots)[..|events|] == Sources(slots);
    forall key, x | && FecLink.Completed(ps, laneCount, size, key) && OnTime(events, key, timeout)
                    && AllButOneSurvive(Sources(slots), wire, key, x) && forall p :: p in ps ==> NoTrailingZero(p)
      ensures multiset(Payloads(ps, laneCount, size, key)) <= multiset(out)
    {
      GroupReturned(ps, laneCount, size, events, Sources(slots), timeout, key, x);
    }
    if AllSafe(ps, laneCount, size, events, Sources(slots), timeout) {
      AllSafeReturned(ps, laneCount, size, events, Sources(slots), timeout);
    }
  }

  /** All groups are completed, lose at most one packet and meet no timeout, and stripping
      changes no payload. */
  ghost predicate AllSafe(ps: seq<Bytes>, lanes: nat, size: nat, events: seq<Event>, source: seq<int>, timeout: real)
    requires lanes > 0 && size > 0
  {
    && AllWhole(ps, lanes, size) && (forall p :: p in ps ==> NoTrailingZero(p))
    && forall key :: FecLink.Completed(ps, lanes, size, key) ==>
         OnTime(events, key, timeout) && LosesAtMostOne(source, Wire(ps, lanes, size), key)
  }

  lemma AllSafeReturned(ps: seq<Bytes>, lanes: nat, size: nat, events: seq<Event>, source: seq<int>, timeout: real)
    requires Sendable(ps, lanes, size) && InOrder(events, source, Wire(ps, lanes, size)) && RegularClock(events, timeout)
    requires 0 < lanes && 0 < size && AllSafe(ps, lanes, size, events, source, timeout)
    ensures Output(Run(events, timeout).log) == multiset(ps)
  {
    hide Wire, Run, Sendable, InOrder, RegularClock, OnTime, LosesAtMostOne, AllWhole, NoTrailingZero, Output,
      FecLink.Completed;
    RoundTrip(ps, lanes, size, events, source, timeout);
  }

  lemma ShortPayloads(ps: seq<Bytes>, lanes: nat, size: nat)
    requires Sendable(ps, lanes, size)
    ensures 0 < lanes < 0x100 && 0 < size < 0x100 && AllShort(ps)
  {
    hide LaneHistory;
  }

  lemma SlotsInRange(slots: seq<Slot>, wireLength: nat)
    requires Channel(slots, wireLength)
    ensures forall i :: 0 <= i < |slots| ==> slots[i].source < wireLength
  {
  }

  lemma HappensFirst(calls: seq<Call>, events: seq<Event>)
    requires Happens(calls, events)
    ensures |events| <= |calls|
  {
  }

  lemma NothingRaises(ps: seq<Bytes>, lanes: nat, size: nat, events: seq<Event>, source: seq<int>, timeout: real)
    requires Sendable(ps, lanes, size) && InOrder(events, source, Wire(ps, lanes, size))
    ensures NoneRaises(events, timeout)
  {
    hide Wire, Sendable, InOrder, AnyOrder, Run, NoneRaises, AllReturned;
    PositiveSizes(ps, lanes, size);
    InOrderIsAny(events, source, Wire(ps, lanes, size));
    SenderCountersAgree(ps, lanes, size, events, timeout);
  }
}
