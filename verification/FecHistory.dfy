/** The receiver's groups, closings and counters in terms of the datagrams that came: nothing
    below looks at how a datagram is taken in (gcs/tools/fec_core.py:26-37, 104-135). */
module FecHistory {
  import opened FecPacket
  import opened FecDecoder
  import opened FecSafety
  import opened Wrappers

  // ---------- What the datagrams say about a group

  /** Event j brings the group's first packet. */
  predicate IsFirst(events: seq<Event>, key: Key, j: nat) {
    j < |events| && IsArrival(events[j], key) && forall i :: 0 <= i < j ==> !IsArrival(events[i], key)
  }

  /** The event brings a packet of this type for the group. */
  predicate BringsType(e: Event, key: Key, ptype: nat) {
    IsArrival(e, key) && Parse(e.raw.value).ptype == ptype
  }

  /** The group's payloads by index; a repeated index keeps its latest payload. */
  function LatestData(events: seq<Event>, key: Key): map<nat, Bytes> {
    if events == [] then map[]
    else
      var before, e := LatestData(events[..|events| - 1], key), events[|events| - 1];
      if BringsType(e, key, TYPE_DATA) then before[Parse(e.raw.value).groupSeq := Parse(e.raw.value).payload]
      else before
  }

  function LatestParity(events: seq<Event>, key: Key): Option<Bytes> {
    if events == [] then None
    else
      var e := events[|events| - 1];
      if BringsType(e, key, TYPE_PARITY) then Some(Parse(e.raw.value).payload)
      else LatestParity(events[..|events| - 1], key)
  }

  /** The group as its packets make it: the size its first packet states, the clock when that
      packet was received, and the latest payloads and parity. */
  ghost predicate GroupIs(events: seq<Event>, key: Key, g: Group) {
    g.data == LatestData(events, key) && g.parity == LatestParity(events, key) && exists j :: OpenedBy(events, key, j, g)
  }

  predicate OpenedBy(events: seq<Event>, key: Key, j: nat, g: Group) {
    && IsFirst(events, key, j)
    && g.size == Parse(events[j].raw.value).groupSize && g.firstSeen == events[j].created
  }

  predicate Arrived(events: seq<Event>, key: Key) {
    exists i :: 0 <= i < |events| && IsArrival(events[i], key)
  }

  /** An open group is what its packets make it, and a group that arrived and is not open
      never opens again. */
  ghost predicate KeyFits(events: seq<Event>, s: State, key: Key) {
    && (key in s.groups ==> GroupIs(events, key, s.groups[key]))
    && (key !in s.groups && Arrived(events, key) ==> key.group <= High(s, key.lane))
  }

  lemma {:induction false} NothingLatest(events: seq<Event>, key: Key)
    requires !Arrived(events, key)
    ensures LatestData(events, key) == map[] && LatestParity(events, key) == None
    decreases events
  {
    hide IsArrival;
    if events != [] {
      var front := events[..|events| - 1];
      assert !IsArrival(events[|events| - 1], key);
      assert forall i :: 0 <= i < |front| ==> front[i] == events[i];
      NothingLatest(front, key);
    }
  }

  lemma ArrivedStep(events: seq<Event>, key: Key)
    requires events != []
    ensures Arrived(events, key) <==> Arrived(events[..|events| - 1], key) || IsArrival(events[|events| - 1], key)
  {
    hide IsArrival;
    var front := events[..|events| - 1];
    assert forall i :: 0 <= i < |front| ==> front[i] == events[i];
    if Arrived(front, key) {
      var i :| 0 <= i < |front| && IsArrival(front[i], key);
      assert IsArrival(events[i], key);
    }
  }

  /** What a packet does to its group. */
  lemma LatestStep(events: seq<Event>, key: Key)
    requires events != []
    ensures var front := events[..|events| - 1]; var e := events[|events| - 1];
            if BringsType(e, key, TYPE_DATA) then
              && LatestData(events, key) == LatestData(front, key)[Parse(e.raw.value).groupSeq := Parse(e.raw.value).payload]
              && LatestParity(events, key) == LatestParity(front, key)
            else if BringsType(e, key, TYPE_PARITY) then
              && LatestData(events, key) == LatestData(front, key)
              && LatestParity(events, key) == Some(Parse(e.raw.value).payload)
            else LatestData(events, key) == LatestData(front, key) && LatestParity(events, key) == LatestParity(front, key)
  {
    hide Parse;
  }

  lemma FirstStays(events: seq<Event>, n: nat, key: Key, j: nat)
    requires n <= |events| && IsFirst(events[..n], key, j)
    ensures IsFirst(events, key, j)
  {
    hide IsArrival;
    assert forall i :: 0 <= i < n ==> events[..n][i] == events[i];
  }

  /** What reception does to one group. */
  lemma ReceivedGroup(s: State, e: Event, key: Key)
    ensures var s' := Receive(s, e.raw, e.created);
            && (forall lane :: High(s', lane) == High(s, lane))
            && if !IsArrival(e, key) then
                 (key in s'.groups <==> key in s.groups) && (key in s.groups ==> s'.groups[key] == s.groups[key])
               else if key !in s.groups && key.group <= High(s, key.lane) then key !in s'.groups
               else
                 var a := Parse(e.raw.value);
                 var g := if key in s.groups then s.groups[key] else Group(a.groupSize, map[], None, e.created);
                 && key in s'.groups
                 && s'.groups[key] == if BringsType(e, key, TYPE_DATA) then g.(data := g.data[a.groupSeq := a.payload])
                                      else if BringsType(e, key, TYPE_PARITY) then g.(parity := Some(a.payload)) else g
  {
    hide Parse;
    var s' := Receive(s, e.raw, e.created);
    assert s'.high == s.high;
  }

  lemma ReceiveFits(events: seq<Event>, s: State, key: Key)
    requires events != [] && KeyFits(events[..|events| - 1], s, key)
    ensures var e := events[|events| - 1]; KeyFits(events, Receive(s, e.raw, e.created), key)
  {
    var n := |events| - 1;
    var front, e := events[..n], events[n];
    ReceivedGroup(s, e, key);
    ArrivedStep(events, key);
    LatestStep(events, key);
    if !Arrived(front, key) {
      NothingLatest(front, key);
    }
    hide Receive, IsArrival, Parse, LatestData, LatestParity, Arrived, High, BringsType;
    var s' := Receive(s, e.raw, e.created);
    if key in s'.groups {
      if key in s.groups {
        var j: nat :| OpenedBy(front, key, j, s.groups[key]);
        FirstStays(events, n, key, j);
        assert events[j] == front[j];
        assert OpenedBy(events, key, j, s'.groups[key]);
      } else {
        OpensFirst(events, key);
        assert OpenedBy(events, key, n, s'.groups[key]);
      }
    }
  }

  lemma OpensFirst(events: seq<Event>, key: Key)
    requires events != [] && IsArrival(events[|events| - 1], key) && !Arrived(events[..|events| - 1], key)
    ensures IsFirst(events, key, |events| - 1)
  {
    hide IsArrival;
    var front := events[..|events| - 1];
    forall i | 0 <= i < |front|
      ensures !IsArrival(events[i], key)
    {
      assert front[i] == events[i];
    }
  }

  lemma SettleFits(events: seq<Event>, s: State, first: Key, now: real, timeout: real, key: Key)
    requires KeyFits(events, s, key)
    ensures KeyFits(events, Settle(s, first, now, timeout).state, key)
  {
    hide TryRecover, GroupIs, Arrived;
  }

  lemma {:induction false} SweepFits(events: seq<Event>, s: State, order: seq<Key>, now: real, timeout: real, key: Key)
    requires KeyFits(events, s, key)
    ensures KeyFits(events, Sweep(s, order, now, timeout).state, key)
    decreases order
  {
    hide Settle, KeyFits;
    if order != [] {
      var r := Settle(s, order[0], now, timeout);
      SettleFits(events, s, order[0], now, timeout, key);
      if !r.raised {
        SweepFits(events, r.state, order[1..], now, timeout, key);
      }
    }
  }

  lemma {:induction false} RunFits(events: seq<Event>, timeout: real, key: Key)
    ensures KeyFits(events, Run(events, timeout), key)
    decreases events
  {
    hide KeyFits, Sweep, Receive;
    if events == [] {
      StartFits(key);
    } else {
      var n := |events| - 1;
      var s, e := Run(events[..n], timeout), events[n];
      RunFits(events[..n], timeout, key);
      ReceiveFits(events, s, key);
      SweepFits(events, Receive(s, e.raw, e.created), e.order, e.now, timeout, key);
    }
  }

  lemma StartFits(key: Key)
    ensures KeyFits([], INITIAL, key)
  {
  }

  /** MAIN: in every run an open group has the size and the clock reading of its first packet,
      whatever came later, and at each index the latest payload. */
  lemma OpenGroups(events: seq<Event>, timeout: real, key: Key)
    requires key in Run(events, timeout).groups
    ensures GroupIs(events, key, Run(events, timeout).groups[key])
  {
    hide Run, GroupIs;
    RunFits(events, timeout, key);
  }

  /** The groups that the sweep of call n meets. */
  lemma MetGroups(events: seq<Event>, n: nat, timeout: real, key: Key)
    requires n < |events| && key in Met(events, n, timeout).groups
    ensures GroupIs(events[..n + 1], key, Met(events, n, timeout).groups[key])
  {
    hide Run, Receive, GroupIs;
    var upto := events[..n + 1];
    assert upto[..n] == events[..n];
    RunFits(events[..n], timeout, key);
    ReceiveFits(upto, Run(events[..n], timeout), key);
  }

  // ---------- Closings

  /** The record of closing group g. */
  predicate ClosingOf(c: Closing, g: Group, now: real, timeout: real) {
    && c.size == g.size && c.got == |g.data|
    && if c.complete then TryRecover(g) == Complete(c.payloads)
       else TryRecover(g).Incomplete? && now - g.firstSeen > timeout && c.payloads == g.data
  }

  lemma SettleCloses(s: State, key: Key, now: real, timeout: real)
    ensures var s' := Settle(s, key, now, timeout).state;
            s'.log == s.log
            || (key in s.groups && |s'.log| == |s.log| + 1 && s'.log[..|s.log|] == s.log && s'.log[|s.log|].key == key
                && ClosingOf(s'.log[|s.log|], s.groups[key], now, timeout))
  {
    hide TryRecover;
  }

  lemma {:induction false} SweepCloses(s: State, order: seq<Key>, now: real, timeout: real, i: nat)
    requires |s.log| <= i < |Sweep(s, order, now, timeout).state.log|
    ensures var c := Sweep(s, order, now, timeout).state.log[i];
            c.key in s.groups && ClosingOf(c, s.groups[c.key], now, timeout)
    decreases order
  {
    hide ClosingOf, Settle;
    if order != [] {
      var r := Settle(s, order[0], now, timeout);
      SettleCloses(s, order[0], now, timeout);
      SettleGroups(s, order[0], now, timeout);
      SettleRaises(s, order[0], now, timeout);
      if !r.raised {
        SweepExtends(r.state, order[1..], now, timeout);
        if i >= |r.state.log| {
          SweepCloses(r.state, order[1..], now, timeout, i);
        }
      }
    }
  }

  /** MAIN: a closing made by call n records the size stated by its group's first packet and
      how many distinct indices had come; an incomplete one gives exactly the latest payloads
      and is made only when the first packet was received longer than the timeout ago, a
      complete one gives what the latest payloads and parity recover. */
  lemma Closings(events: seq<Event>, n: nat, timeout: real, i: nat)
    requires n < |events| && |Run(events[..n], timeout).log| <= i < |Run(events[..n + 1], timeout).log|
    ensures RecordFits(events[..n + 1], Run(events[..n + 1], timeout).log[i], events[n].now, timeout)
  {
    hide Run, Receive, Sweep, GroupIs, ClosingOf;
    var upto, e := events[..n + 1], events[n];
    assert upto[..n] == events[..n];
    var met := Met(events, n, timeout);
    ReceiveKeepsLog(Run(events[..n], timeout), e);
    RunIsSweep(events, n, timeout);
    SweepCloses(met, e.order, e.now, timeout, i);
    var c := Run(upto, timeout).log[i];
    MetGroups(events, n, timeout, c.key);
    ClosedFrom(upto, c, met.groups[c.key], e.now, timeout);
  }

  ghost predicate RecordFits(events: seq<Event>, c: Closing, now: real, timeout: real) {
    exists j: nat :: ClosedBy(events, c, j, now, timeout)
  }

  ghost predicate ClosedBy(events: seq<Event>, c: Closing, j: nat, now: real, timeout: real) {
    && IsFirst(events, c.key, j)
    && c.size == Parse(events[j].raw.value).groupSize && c.got == |LatestData(events, c.key)|
    && if c.complete
       then TryRecover(Group(c.size, LatestData(events, c.key), LatestParity(events, c.key), 0.0)) == Complete(c.payloads)
       else now - events[j].created > timeout && c.payloads == LatestData(events, c.key)
  }

  lemma ClosedFrom(events: seq<Event>, c: Closing, g: Group, now: real, timeout: real)
    requires GroupIs(events, c.key, g) && ClosingOf(c, g, now, timeout)
    ensures RecordFits(events, c, now, timeout)
  {
    hide LatestData, LatestParity, IsFirst, TryRecover;
    var j: nat :| OpenedBy(events, c.key, j, g);
    AgeIrrelevant(g);
    assert Group(c.size, LatestData(events, c.key), LatestParity(events, c.key), 0.0) == g.(firstSeen := 0.0);
    assert ClosedBy(events, c, j, now, timeout);
  }

  lemma AgeIrrelevant(g: Group)
    ensures TryRecover(g.(firstSeen := 0.0)) == TryRecover(g)
  {
    hide FecParity.StripZeros, FecParity.Rebuilt;
    var h := g.(firstSeen := 0.0);
    assert Missing(h) == Missing(g);
    if Missing(g) != {} && |Missing(g)| == 1 {
      var m :| m in Missing(g);
      OnlyMissing(g, m);
      OnlyMissing(h, m);
    }
  }

  lemma ReceiveKeepsLog(s: State, e: Event)
    ensures Receive(s, e.raw, e.created).log == s.log
  {
    hide Parse;
  }

  lemma RunIsSweep(events: seq<Event>, n: nat, timeout: real)
    requires n < |events|
    ensures Run(events[..n + 1], timeout) == Sweep(Met(events, n, timeout), events[n].order, events[n].now, timeout).state
  {
    hide Receive, Sweep;
    assert events[..n + 1][..n] == events[..n];
  }

  // ---------- Each counter

  function SumGot(log: seq<Closing>): nat {
    if log == [] then 0 else SumGot(log[..|log| - 1]) + log[|log| - 1].got
  }

  /** What the complete closings lacked. */
  function SumRebuilt(log: seq<Closing>): nat {
    if log == [] then 0
    else
      var c := log[|log| - 1];
      SumRebuilt(log[..|log| - 1]) + if c.complete && c.got < c.size then c.size - c.got else 0
  }

  /** What the other closings lacked. */
  function SumLacking(log: seq<Closing>): int {
    if log == [] then 0
    else var c := log[|log| - 1]; SumLacking(log[..|log| - 1]) + if c.complete then 0 else c.size - c.got
  }

  ghost predicate BooksMatch(s: State) {
    s.stats.delivered == SumGot(s.log) && s.stats.recovered == SumRebuilt(s.log) && s.stats.lost == SumLacking(s.log)
  }

  lemma CloseBooks(s: State, key: Key, payloads: map<nat, Bytes>, complete: bool)
    requires BooksMatch(s) && key in s.groups
    ensures BooksMatch(Close(s, key, payloads, complete))
  {
    var s' := Close(s, key, payloads, complete);
    assert s'.log[..|s.log|] == s.log;
  }

  lemma SettleBooks(s: State, key: Key, now: real, timeout: real)
    requires BooksMatch(s)
    ensures BooksMatch(Settle(s, key, now, timeout).state)
  {
    hide BooksMatch, Close, TryRecover;
    if key in s.groups {
      var g := s.groups[key];
      match TryRecover(g) {
        case IndexError =>
        case Complete(payloads) => CloseBooks(s, key, payloads, true);
        case Incomplete =>
          if TimedOut(g, now, timeout) {
            CloseBooks(s, key, g.data, false);
          }
      }
    }
  }

  lemma {:induction false} SweepBooks(s: State, order: seq<Key>, now: real, timeout: real)
    requires BooksMatch(s)
    ensures BooksMatch(Sweep(s, order, now, timeout).state)
    decreases order
  {
    hide BooksMatch, Settle;
    if order != [] {
      var r := Settle(s, order[0], now, timeout);
      SettleBooks(s, order[0], now, timeout);
      if !r.raised {
        SweepBooks(r.state, order[1..], now, timeout);
      }
    }
  }

  lemma ReceiveBooks(s: State, raw: Option<Bytes>, created: real)
    requires BooksMatch(s)
    ensures BooksMatch(Receive(s, raw, created))
  {
    hide Parse, SumGot, SumRebuilt, SumLacking;
  }

  lemma NothingBookedYet()
    ensures BooksMatch(INITIAL)
  {
  }

  /** delivered counts the distinct indices of all finalised groups, recovered what complete
      ones lacked, lost what the others lacked. */
  lemma {:induction false} EachClosingCounted(events: seq<Event>, timeout: real)
    ensures var s := Run(events, timeout);
            s.stats.delivered == SumGot(s.log) && s.stats.recovered == SumRebuilt(s.log) && s.stats.lost == SumLacking(s.log)
    decreases events
  {
    hide Sweep, Receive, SumGot, SumRebuilt, SumLacking;
    if events == [] {
      NothingBookedYet();
    } else {
      var s, e := Run(events[..|events| - 1], timeout), events[|events| - 1];
      EachClosingCounted(events[..|events| - 1], timeout);
      ReceiveBooks(s, e.raw, e.created);
      SweepBooks(Receive(s, e.raw, e.created), e.order, e.now, timeout);
    }
  }

  /** What a datagram is counted as. */
  datatype Bin = DataBin | ParityBin | CorruptBin | StaleBin

  /** The group is closed or was passed over: it is not open, and its lane has finalised it or
      a later one. */
  ghost predicate Stale(s: State, key: Key) {
    key !in s.groups && exists i :: 0 <= i < |s.log| && s.log[i].key.lane == key.lane && s.log[i].key.group >= key.group
  }

  ghost function BinOf(s: State, e: Event): Option<Bin> {
    if e.raw.None? then None
    else
      match Parse(e.raw.value)
      case TooShort => None
      case Corrupt => Some(CorruptBin)
      case Accepted(ptype, lane, laneGroup, _, _, _) =>
        if Stale(s, Key(lane, laneGroup)) then Some(StaleBin)
        else if ptype == TYPE_DATA then Some(DataBin)
        else if ptype == TYPE_PARITY then Some(ParityBin)
        else None
  }

  /** How many datagrams of the run fall into a bin. */
  ghost function Tally(events: seq<Event>, timeout: real, bin: Bin): nat {
    if events == [] then 0
    else
      var n := |events| - 1;
      Tally(events[..n], timeout, bin) + if BinOf(Run(events[..n], timeout), events[n]) == Some(bin) then 1 else 0
  }

  lemma StaleIsBelow(s: State, key: Key)
    requires BelowWatermark(s) && WatermarkReached(s)
    ensures Stale(s, key) <==> key !in s.groups && key.group <= High(s, key.lane)
  {
    hide High;
    if key !in s.groups && key.group <= High(s, key.lane) {
      var i :| 0 <= i < |s.log| && s.log[i].key == Key(key.lane, High(s, key.lane));
      assert s.log[i].key.group >= key.group;
    }
  }

  function CountOf(s: State, bin: Bin): nat {
    match bin
    case DataBin => s.stats.dataPkts
    case ParityBin => s.stats.parityPkts
    case CorruptBin => s.stats.crcFail
    case StaleBin => s.stats.staleDropped
  }

  lemma ReceiveTallies(s: State, e: Event, bin: Bin)
    requires BelowWatermark(s) && WatermarkReached(s)
    ensures CountOf(Receive(s, e.raw, e.created), bin) == CountOf(s, bin) + if BinOf(s, e) == Some(bin) then 1 else 0
  {
    hide Parse, Stale, BelowWatermark, WatermarkReached;
    if e.raw.Some? && Parse(e.raw.value).Accepted? {
      var a := Parse(e.raw.value);
      StaleIsBelow(s, Key(a.lane, a.laneGroup));
    }
  }

  lemma {:induction false} SweepTallies(s: State, order: seq<Key>, now: real, timeout: real, bin: Bin)
    ensures CountOf(Sweep(s, order, now, timeout).state, bin) == CountOf(s, bin)
    decreases order
  {
    hide TryRecover;
    if order != [] && !Settle(s, order[0], now, timeout).raised {
      SweepTallies(Settle(s, order[0], now, timeout).state, order[1..], now, timeout, bin);
    }
  }

  /** MAIN: each reception counter is the number of datagrams of its kind: DATA and PARITY of
      groups not passed over, datagrams that are corrupt, packets of groups passed over. */
  lemma {:induction false} EachDatagramCounted(events: seq<Event>, timeout: real, bin: Bin)
    ensures CountOf(Run(events, timeout), bin) == Tally(events, timeout, bin)
    decreases events
  {
    hide Sweep, Receive, BinOf;
    if events != [] {
      var n := |events| - 1;
      var s, e := Run(events[..n], timeout), events[n];
      EachDatagramCounted(events[..n], timeout, bin);
      ExactlyOnce(events[..n], timeout);
      ReceiveTallies(s, e, bin);
      SweepTallies(Receive(s, e.raw, e.created), e.order, e.now, timeout, bin);
    }
  }
}
