/** What the receiver hands out for one group: never a byte that was not sent, and the
    whole group exactly when enough of its packets arrive in time. */
module FecDelivery {
  import opened FecPacket
  import opened FecParity
  import opened FecDecoder
  import opened FecSafety
  import opened FecHistory
  import opened Wrappers

  // ---------- Genuine packets

  /** The packet is one of those the sender made for a group with payloads ps. */
  predicate Genuine(a: Arrival, ps: seq<Bytes>)
    requires a.Accepted?
  {
    && a.groupSize == |ps|
    && (|| (a.ptype == TYPE_DATA && a.groupSeq < |ps| && a.payload == ps[a.groupSeq])
        || (a.ptype == TYPE_PARITY && a.payload == Parity(ps)))
  }

  predicate GenuineFor(events: seq<Event>, key: Key, ps: seq<Bytes>) {
    && 0 < |ps| < 256
    && forall i :: 0 <= i < |events| && IsArrival(events[i], key) ==> Genuine(Parse(events[i].raw.value), ps)
  }

  /** The distinct packets of a group that have arrived. */
  datatype Heard = Heard(slots: set<nat>, parity: bool)

  const SILENCE: Heard := Heard({}, false)

  function Count(h: Heard): nat {
    |h.slots| + if h.parity then 1 else 0
  }

  function HeardNext(h: Heard, e: Event, key: Key): Heard {
    if !IsArrival(e, key) then h
    else
      var a := Parse(e.raw.value);
      if a.ptype == TYPE_DATA then Heard(h.slots + {a.groupSeq}, h.parity)
      else if a.ptype == TYPE_PARITY then Heard(h.slots, true)
      else h
  }

  function HeardIn(events: seq<Event>, key: Key): Heard {
    if events == [] then SILENCE
    else HeardNext(HeardIn(events[..|events| - 1], key), events[|events| - 1], key)
  }

  // ---------- What a group holds and what it gives

  predicate Holds(g: Group, ps: seq<Bytes>, h: Heard) {
    && g.size == |ps|
    && g.data.Keys == h.slots
    && (forall k :: k in g.data ==> k < |ps| && g.data[k] == ps[k])
    && g.parity == (if h.parity then Some(Parity(ps)) else None)
  }

  /** All payloads, byte for byte, except that number x has lost its trailing zeros. */
  predicate DeliveredBut(m: map<nat, Bytes>, ps: seq<Bytes>, x: nat) {
    && (forall j :: j in m ==> j < |ps|)
    && (forall j :: 0 <= j < |ps| ==> j in m && m[j] == (if j == x then StripZeros(ps[j]) else ps[j]))
  }

  ghost predicate Delivered(m: map<nat, Bytes>, ps: seq<Bytes>) {
    exists x: nat :: DeliveredBut(m, ps, x)
  }

  /** A complete closing needed enough packets; an incomplete one gives only what came. */
  ghost predicate HonestClosing(c: Closing, ps: seq<Bytes>, h: Heard) {
    && c.size == |ps|
    && if c.complete then Count(h) >= |ps| && Delivered(c.payloads, ps)
       else forall k :: k in c.payloads ==> k < |ps| && c.payloads[k] == ps[k]
  }

  /** A genuine group is recoverable exactly when at most one of its packets is missing,
      and is then recovered whole. */
  lemma RecoverGenuine(g: Group, ps: seq<Bytes>, h: Heard)
    requires 0 < |ps| < 256 && Holds(g, ps, h)
    ensures if Count(h) >= |ps| then TryRecover(g).Complete? && Delivered(TryRecover(g).payloads, ps)
            else TryRecover(g).Incomplete?
  {
    hide Parity, Rebuilt, StripZeros, FitsParity;
    PresentAndMissing(g);
    assert |g.data| == |g.data.Keys| == |h.slots|;
    if Missing(g) == {} {
      forall j | 0 <= j < |ps|
        ensures j in g.data
      {
        assert j !in Missing(g);
      }
      assert DeliveredBut(g.data, ps, |ps|);
    } else if |Missing(g)| == 1 && h.parity {
      var m :| m in Missing(g);
      OnlyMissing(g, m);
      forall k | 0 <= k < |ps| && k != m
        ensures k in g.data
      {
        assert k !in Missing(g);
      }
      assert AllBut(g.data, ps, m);
      GenuineFits(g, ps, h);
      RebuiltIsMissing(g.data, ps, m);
      assert DeliveredBut(TryRecover(g).payloads, ps, m);
    }
  }

  lemma GenuineFits(g: Group, ps: seq<Bytes>, h: Heard)
    requires Holds(g, ps, h) && h.parity
    ensures FitsParity(g)
  {
    hide ParityAt, MaxLen;
    forall k | k in g.data
      ensures |g.data[k]| <= |Parity(ps)|
    {
      MaxLenBounds(ps, k);
    }
  }

  // ---------- Integrity, whatever the channel does

  /** The state of one group in a run, relative to what has arrived of it. */
  ghost predicate Honest(s: State, key: Key, ps: seq<Bytes>, h: Heard) {
    && (key in s.groups ==> Holds(s.groups[key], ps, h) && h != SILENCE)
    && (forall i :: 0 <= i < |s.log| && s.log[i].key == key ==> HonestClosing(s.log[i], ps, h))
    && (key !in s.groups && h != SILENCE ==> key.group <= High(s, key.lane))
  }

  lemma CountGrows(h: Heard, e: Event, key: Key)
    ensures Count(h) <= Count(HeardNext(h, e, key))
    ensures IsArrival(e, key) && Parse(e.raw.value).ptype in {TYPE_DATA, TYPE_PARITY}
            ==> HeardNext(h, e, key) != SILENCE
    ensures !IsArrival(e, key) ==> HeardNext(h, e, key) == h
  {
    hide Parse;
    var h' := HeardNext(h, e, key);
    assert h.slots <= h'.slots;
    SubsetSize(h.slots, h'.slots);
    if IsArrival(e, key) && Parse(e.raw.value).ptype == TYPE_DATA {
      assert Parse(e.raw.value).groupSeq in h'.slots;
    }
  }

  lemma SubsetSize(a: set<nat>, b: set<nat>)
    requires a <= b
    ensures |a| <= |b|
  {
    assert b == a + (b - a);
  }

  lemma ReceiveHonest(s: State, e: Event, key: Key, ps: seq<Bytes>, h: Heard)
    requires Inv(s) && Honest(s, key, ps, h) && 0 < |ps| < 256
    requires IsArrival(e, key) ==> Genuine(Parse(e.raw.value), ps)
    ensures Honest(Receive(s, e.raw, e.created), key, ps, HeardNext(h, e, key))
  {
    hide Parse, Holds, HonestClosing, Inv, HeardNext;
    CountGrows(h, e, key);
    ReceiveFrame(s, e, key);
    var s' := Receive(s, e.raw, e.created);
    if IsArrival(e, key) {
      ReceiveThis(s, e, key, ps, h);
      forall i | 0 <= i < |s.log| && s.log[i].key == key
        ensures HonestClosing(s.log[i], ps, HeardNext(h, e, key))
      {
        HonestStays(s.log[i], ps, h, HeardNext(h, e, key));
      }
    }
  }

  lemma HonestStays(c: Closing, ps: seq<Bytes>, h: Heard, h': Heard)
    requires HonestClosing(c, ps, h) && Count(h) <= Count(h')
    ensures HonestClosing(c, ps, h')
  {
    hide Delivered;
  }

  /** Reception touches neither the history nor the watermarks nor, unless it is an arrival
      of the group, the group. */
  lemma ReceiveFrame(s: State, e: Event, key: Key)
    ensures var s' := Receive(s, e.raw, e.created);
            && s'.log == s.log && High(s', key.lane) == High(s, key.lane)
            && (!IsArrival(e, key) ==>
                  (key in s'.groups <==> key in s.groups) && (key in s.groups ==> s'.groups[key] == s.groups[key]))
  {
    hide Parse;
  }

  /** An arrival is either added to its group, opening it if need be, or is stale. */
  lemma ReceiveThis(s: State, e: Event, key: Key, ps: seq<Bytes>, h: Heard)
    requires IsArrival(e, key) && Genuine(Parse(e.raw.value), ps)
    requires key in s.groups ==> Holds(s.groups[key], ps, h)
    requires key !in s.groups && h != SILENCE ==> key.group <= High(s, key.lane)
    ensures var s' := Receive(s, e.raw, e.created);
            if key in s'.groups then Holds(s'.groups[key], ps, HeardNext(h, e, key))
            else key.group <= High(s', key.lane)
  {
    hide Parse, Parity;
    var s' := Receive(s, e.raw, e.created);
    var a := Parse(e.raw.value);
    if key in s'.groups {
      if key in s.groups {
        HoldsGrows(s.groups[key], s'.groups[key], a, ps, h, HeardNext(h, e, key));
      } else {
        assert h == SILENCE;
        HoldsGrows(Group(a.groupSize, map[], None, e.created), s'.groups[key], a, ps, h, HeardNext(h, e, key));
      }
    }
  }

  lemma HoldsGrows(g: Group, g': Group, a: Arrival, ps: seq<Bytes>, h: Heard, h': Heard)
    requires a.Accepted? && Genuine(a, ps) && Holds(g, ps, h)
    requires if a.ptype == TYPE_DATA
             then g' == g.(data := g.data[a.groupSeq := a.payload]) && h' == Heard(h.slots + {a.groupSeq}, h.parity)
             else g' == g.(parity := Some(a.payload)) && h' == Heard(h.slots, true)
    ensures Holds(g', ps, h')
  {
    hide Parity;
  }

  lemma CloseHonest(s: State, other: Key, payloads: map<nat, Bytes>, complete: bool, key: Key, ps: seq<Bytes>, h: Heard)
    requires Honest(s, key, ps, h) && other in s.groups
    requires other == key ==>
             HonestClosing(Closing(key, s.groups[key].size, |s.groups[key].data|, complete, payloads), ps, h)
    ensures Honest(Close(s, other, payloads, complete), key, ps, h)
  {
    hide HonestClosing, Holds;
    assert High(s, key.lane) <= High(Close(s, other, payloads, complete), key.lane);
  }

  lemma SettleHonest(s: State, other: Key, now: real, timeout: real, key: Key, ps: seq<Bytes>, h: Heard)
    requires Honest(s, key, ps, h) && 0 < |ps| < 256
    ensures Honest(Settle(s, other, now, timeout).state, key, ps, h)
  {
    hide Honest, Close, TryRecover, Delivered;
    if other in s.groups {
      var g := s.groups[other];
      if other == key {
        HoldsNow(s, key, ps, h);
        RecoverGenuine(g, ps, h);
        match TryRecover(g) {
          case IndexError =>
          case Complete(payloads) => CloseHonest(s, key, payloads, true, key, ps, h);
          case Incomplete =>
            if TimedOut(g, now, timeout) {
              CloseHonest(s, key, g.data, false, key, ps, h);
            }
        }
      } else {
        match TryRecover(g) {
          case IndexError =>
          case Complete(payloads) => CloseHonest(s, other, payloads, true, key, ps, h);
          case Incomplete =>
            if TimedOut(g, now, timeout) {
              CloseHonest(s, other, g.data, false, key, ps, h);
            }
        }
      }
    }
  }

  lemma HoldsNow(s: State, key: Key, ps: seq<Bytes>, h: Heard)
    requires Honest(s, key, ps, h) && key in s.groups
    ensures Holds(s.groups[key], ps, h)
  {
  }

  lemma {:induction false} SweepHonest(s: State, order: seq<Key>, now: real, timeout: real,
                                       key: Key, ps: seq<Bytes>, h: Heard)
    requires Honest(s, key, ps, h) && 0 < |ps| < 256
    ensures Honest(Sweep(s, order, now, timeout).state, key, ps, h)
    decreases order
  {
    hide Honest, Settle;
    if order != [] {
      var r := Settle(s, order[0], now, timeout);
      SettleHonest(s, order[0], now, timeout, key, ps, h);
      if !r.raised {
        SweepHonest(r.state, order[1..], now, timeout, key, ps, h);
      }
    }
  }

  lemma {:induction false} RunHonest(events: seq<Event>, timeout: real, key: Key, ps: seq<Bytes>)
    requires GenuineFor(events, key, ps)
    ensures Honest(Run(events, timeout), key, ps, HeardIn(events, key))
    decreases events
  {
    hide Honest, Sweep, Receive, Inv, IsArrival, Genuine, HeardNext;
    if events == [] {
      StartHonest(key, ps);
    } else {
      var n := |events| - 1;
      var s, e, h := Run(events[..n], timeout), events[n], HeardIn(events[..n], key);
      assert forall i :: 0 <= i < n ==> events[..n][i] == events[i];
      RunHonest(events[..n], timeout, key, ps);
      ExactlyOnce(events[..n], timeout);
      ReceiveHonest(s, e, key, ps, h);
      SweepHonest(Receive(s, e.raw, e.created), e.order, e.now, timeout, key, ps, HeardNext(h, e, key));
    }
  }

  lemma StartHonest(key: Key, ps: seq<Bytes>)
    ensures Honest(INITIAL, key, ps, SILENCE)
  {
  }

  /** MAIN: under any loss, duplication, reordering, delay and interference from other
      groups, whatever is handed out for a group is what was sent: a timed-out group gives
      only payloads that arrived, a complete one gives all of them with at most one stripped
      of trailing zeros, and only after all but at most one of its packets arrived. */
  lemma Integrity(events: seq<Event>, timeout: real, key: Key, ps: seq<Bytes>, i: nat)
    requires GenuineFor(events, key, ps)
    requires i < |Run(events, timeout).log| && Run(events, timeout).log[i].key == key
    ensures var c := Run(events, timeout).log[i];
            && HonestClosing(c, ps, HeardIn(events, key))
            && (c.complete ==> Count(HeardIn(events, key)) >= |ps|)
  {
    hide HonestClosing, Run, HeardIn;
    RunHonest(events, timeout, key, ps);
    if Run(events, timeout).log[i].complete {
      HonestCounts(Run(events, timeout).log[i], ps, HeardIn(events, key));
    }
  }

  lemma HonestCounts(c: Closing, ps: seq<Bytes>, h: Heard)
    requires HonestClosing(c, ps, h) && c.complete
    ensures Count(h) >= |ps| && Delivered(c.payloads, ps)
  {
  }

  // ---------- Delivery

  /** No packet of a later group of the lane comes before the group's first packet. */
  ghost predicate OpensInOrder(events: seq<Event>, key: Key) {
    forall i, group | 0 <= i < |events| && group > key.group && IsArrival(events[i], Key(key.lane, group)) ::
      exists j :: 0 <= j < i && IsArrival(events[j], key)
  }

  /** Clock readings do not go back, and event `last`, an arrival of the group, is swept
      within the timeout of the reception of the group's first packet. */
  ghost predicate Punctual(events: seq<Event>, key: Key, last: nat, timeout: real) {
    && last < |events| && IsArrival(events[last], key)
    && (forall i, j :: 0 <= i <= j < |events| ==> events[i].now <= events[j].now)
    && (forall j :: 0 <= j <= last ==> FirstWithin(events, key, j, events[last].now, timeout))
  }

  /** If event j brought the group's first packet, it was received within the timeout of now. */
  predicate FirstWithin(events: seq<Event>, key: Key, j: nat, now: real, timeout: real)
    requires j < |events|
  {
    IsFirst(events, key, j) ==> now - events[j].created <= timeout
  }

  /** Every call's sweep visits every open group and none raises. */
  ghost predicate Sweeps(events: seq<Event>, timeout: real) {
    forall n :: 0 <= n < |events| ==> SweptAt(events, n, timeout)
  }

  ghost predicate SweptAt(events: seq<Event>, n: nat, timeout: real)
    requires n < |events|
  {
    var s := Run(events[..n], timeout);
    && Enumerates(events[n].order, Receive(s, events[n].raw, events[n].created).groups.Keys)
    && !Poll(s, events[n], timeout).raised
  }

  /** The lane has not reached the group yet. */
  ghost predicate Ahead(s: State, key: Key) {
    && key !in s.groups
    && High(s, key.lane) < key.group
    && forall k :: k in s.groups && k.lane == key.lane ==> k.group < key.group
  }

  ghost predicate Finished(s: State, key: Key) {
    exists i :: 0 <= i < |s.log| && s.log[i].key == key && s.log[i].complete
  }

  lemma FinishedStays(s: State, s': State, key: Key)
    requires Finished(s, key) && Later(s, s')
    ensures Finished(s', key)
  {
    var i :| 0 <= i < |s.log| && s.log[i].key == key && s.log[i].complete;
    assert s'.log[i] == s.log[i];
  }

  /** A group that is neither complete nor timed out stays as it is. */
  lemma {:induction false} SweepLeaves(s: State, order: seq<Key>, now: real, timeout: real, key: Key)
    requires key in s.groups && TryRecover(s.groups[key]).Incomplete? && !TimedOut(s.groups[key], now, timeout)
    ensures var s' := Sweep(s, order, now, timeout).state; key in s'.groups && s'.groups[key] == s.groups[key]
    decreases order
  {
    hide TryRecover;
    if order != [] {
      var r := Settle(s, order[0], now, timeout);
      assert key in r.state.groups && r.state.groups[key] == s.groups[key];
      if !r.raised {
        SweepLeaves(r.state, order[1..], now, timeout, key);
      }
    }
  }

  /** A recoverable group that is visited is finalised. */
  lemma {:induction false} SweepFinishes(s: State, order: seq<Key>, now: real, timeout: real, key: Key)
    requires Inv(s) && key in s.groups && TryRecover(s.groups[key]).Complete? && key in order
    requires !Sweep(s, order, now, timeout).raised
    ensures Finished(Sweep(s, order, now, timeout).state, key)
    decreases order
  {
    hide TryRecover, Inv, Later;
    var r := Settle(s, order[0], now, timeout);
    SettleKeeps(s, order[0], now, timeout);
    if order[0] == key {
      assert r.state.log[|s.log|].key == key;
      SweepKeeps(r.state, order[1..], now, timeout);
      FinishedStays(r.state, Sweep(s, order, now, timeout).state, key);
    } else {
      assert key in r.state.groups && r.state.groups[key] == s.groups[key];
      SweepFinishes(r.state, order[1..], now, timeout, key);
    }
  }

  lemma SettleAhead(s: State, other: Key, now: real, timeout: real, key: Key)
    requires Ahead(s, key)
    ensures Ahead(Settle(s, other, now, timeout).state, key)
  {
    hide TryRecover;
  }

  lemma {:induction false} SweepAhead(s: State, order: seq<Key>, now: real, timeout: real, key: Key)
    requires Ahead(s, key)
    ensures Ahead(Sweep(s, order, now, timeout).state, key)
    decreases order
  {
    hide Ahead, Settle;
    if order != [] {
      var r := Settle(s, order[0], now, timeout);
      SettleAhead(s, order[0], now, timeout, key);
      if !r.raised {
        SweepAhead(r.state, order[1..], now, timeout, key);
      }
    }
  }

  lemma {:induction false} SilentUntilHeard(events: seq<Event>, key: Key, ps: seq<Bytes>)
    requires GenuineFor(events, key, ps)
    ensures HeardIn(events, key) == SILENCE <==> forall j :: 0 <= j < |events| ==> !IsArrival(events[j], key)
    decreases events
  {
    hide IsArrival, Genuine, HeardNext;
    if events != [] {
      var n := |events| - 1;
      assert forall i :: 0 <= i < n ==> events[..n][i] == events[i];
      SilentUntilHeard(events[..n], key, ps);
      SilenceStep(HeardIn(events[..n], key), events[n], key, ps);
      if HeardIn(events[..n], key) != SILENCE {
        var j :| 0 <= j < n && IsArrival(events[..n][j], key);
        assert IsArrival(events[j], key);
      }
    }
  }

  lemma SilenceStep(h: Heard, e: Event, key: Key, ps: seq<Bytes>)
    requires IsArrival(e, key) ==> Genuine(Parse(e.raw.value), ps)
    ensures HeardNext(h, e, key) == SILENCE <==> h == SILENCE && !IsArrival(e, key)
  {
    hide Parse, Parity;
    if IsArrival(e, key) {
      CountGrows(h, e, key);
    }
  }

  /** Where the group stands after n events, as long as its last needed arrival is still
      to come or has just come. */
  ghost predicate OnTrack(events: seq<Event>, n: nat, timeout: real, key: Key, ps: seq<Bytes>, last: nat)
    requires n <= |events|
  {
    var s, h := Run(events[..n], timeout), HeardIn(events[..n], key);
    if h == SILENCE then Ahead(s, key)
    else if Count(h) >= |ps| then Finished(s, key)
    else n <= last ==> key in s.groups
  }

  /** The group after reception: untouched ahead of its lane, or open. */
  lemma ReceiveOnTrack(s: State, e: Event, key: Key, ps: seq<Bytes>, h: Heard)
    requires IsArrival(e, key) ==> Genuine(Parse(e.raw.value), ps)
    requires h == SILENCE ==> Ahead(s, key)
    requires h != SILENCE ==> key in s.groups
    requires h == SILENCE ==> forall group :: group > key.group ==> !IsArrival(e, Key(key.lane, group))
    ensures var s' := Receive(s, e.raw, e.created);
            if HeardNext(h, e, key) == SILENCE then Ahead(s', key) else key in s'.groups
  {
    hide Parse, Parity;
    SilenceStep(h, e, key, ps);
    if !IsArrival(e, key) && h == SILENCE && e.raw.Some? && Parse(e.raw.value).Accepted? {
      var a := Parse(e.raw.value);
      if a.lane == key.lane {
        assert IsArrival(e, Key(key.lane, a.laneGroup));
      }
    }
  }

  lemma StepOnTrack(events: seq<Event>, n: nat, timeout: real, key: Key, ps: seq<Bytes>, last: nat)
    requires n <= last && GenuineFor(events, key, ps)
    requires OpensInOrder(events, key) && Punctual(events, key, last, timeout) && Sweeps(events, timeout)
    requires OnTrack(events, n, timeout, key, ps, last)
    ensures OnTrack(events, n + 1, timeout, key, ps, last)
  {
    hide Receive, Sweep, Inv, IsArrival, Genuine, HeardNext, Ahead, Holds, Honest, TryRecover, Later;
    var s, e, h := Run(events[..n], timeout), events[n], HeardIn(events[..n], key);
    var r, h' := Receive(s, e.raw, e.created), HeardNext(h, e, key);
    assert events[..n + 1][..n] == events[..n];
    var s' := Sweep(r, e.order, e.now, timeout).state;
    assert Run(events[..n + 1], timeout) == s' && HeardIn(events[..n + 1], key) == h';
    assert SweptAt(events, n, timeout);
    PrefixGenuine(events, n, key, ps);
    ExactlyOnce(events[..n], timeout);
    ReceiveKeeps(s, e.raw, e.created);
    SweepKeeps(r, e.order, e.now, timeout);
    RunHonest(events[..n], timeout, key, ps);
    ReceiveHonest(s, e, key, ps, h);
    if h != SILENCE && Count(h) >= |ps| {
      CountGrows(h, e, key);
      LaterTrans(s, r, s');
      FinishedStays(s, s', key);
      SilenceStep(h, e, key, ps);
    } else {
      NoLaterGroup(events, n, key, ps);
      ReceiveOnTrack(s, e, key, ps, h);
      if h' == SILENCE {
        SweepAhead(r, e.order, e.now, timeout, key);
      } else {
        HoldsNow(r, key, ps, h');
        RecoverGenuine(r.groups[key], ps, h');
        if Count(h') >= |ps| {
          SweepFinishes(r, e.order, e.now, timeout, key);
        } else {
          NotOverdue(events, n, timeout, key, last);
          SweepLeaves(r, e.order, e.now, timeout, key);
        }
      }
    }
  }

  /** Up to its last needed arrival a punctual group is not overdue. */
  lemma NotOverdue(events: seq<Event>, n: nat, timeout: real, key: Key, last: nat)
    requires n <= last && Punctual(events, key, last, timeout) && key in Met(events, n, timeout).groups
    ensures !TimedOut(Met(events, n, timeout).groups[key], events[n].now, timeout)
  {
    hide Met, IsFirst, IsArrival, LatestData, LatestParity;
    MetGroups(events, n, timeout, key);
    var j: nat :| OpenedBy(events[..n + 1], key, j, Met(events, n, timeout).groups[key]);
    FirstStays(events, n + 1, key, j);
    FirstInRange(events[..n + 1], key, j);
    assert events[..n + 1][j] == events[j];
    assert FirstWithin(events, key, j, events[last].now, timeout);
  }

  lemma FirstInRange(events: seq<Event>, key: Key, j: nat)
    requires IsFirst(events, key, j)
    ensures j < |events|
  {
  }

  lemma PrefixGenuine(events: seq<Event>, n: nat, key: Key, ps: seq<Bytes>)
    requires n < |events| && GenuineFor(events, key, ps)
    ensures GenuineFor(events[..n], key, ps)
    ensures IsArrival(events[n], key) ==> Genuine(Parse(events[n].raw.value), ps)
  {
    hide IsArrival, Genuine, Parse;
  }

  lemma NoLaterGroup(events: seq<Event>, n: nat, key: Key, ps: seq<Bytes>)
    requires n < |events| && GenuineFor(events, key, ps) && OpensInOrder(events, key)
    ensures HeardIn(events[..n], key) == SILENCE
            ==> forall group :: group > key.group ==> !IsArrival(events[n], Key(key.lane, group))
  {
    hide IsArrival, Genuine, HeardIn;
    PrefixGenuine(events, n, key, ps);
    SilentUntilHeard(events[..n], key, ps);
    assert forall i :: 0 <= i < n ==> events[..n][i] == events[i];
  }

  lemma {:induction false} StayOnTrack(events: seq<Event>, n: nat, timeout: real, key: Key, ps: seq<Bytes>, last: nat)
    requires GenuineFor(events, key, ps)
    requires OpensInOrder(events, key) && Punctual(events, key, last, timeout) && Sweeps(events, timeout)
    requires n <= last + 1
    ensures OnTrack(events, n, timeout, key, ps, last)
    decreases n
  {
    hide OnTrack, Punctual, Sweeps, OpensInOrder, GenuineFor, IsArrival;
    if n == 0 {
      StartOnTrack(events, timeout, key, ps, last);
    } else {
      StayOnTrack(events, n - 1, timeout, key, ps, last);
      LastInRange(events, key, last, timeout);
      StepOnTrack(events, n - 1, timeout, key, ps, last);
    }
  }

  lemma LastInRange(events: seq<Event>, key: Key, last: nat, timeout: real)
    requires Punctual(events, key, last, timeout)
    ensures last < |events| && IsArrival(events[last], key)
  {
  }

  lemma StartOnTrack(events: seq<Event>, timeout: real, key: Key, ps: seq<Bytes>, last: nat)
    ensures OnTrack(events, 0, timeout, key, ps, last)
  {
  }

  /** MAIN: a group all but at most one of whose distinct packets have arrived by event
      `last` is finalised as complete, whole, exactly once - provided its first packet comes
      before any packet of a later group of its lane and `last` is on time.  Duplicates,
      reordering inside the group and traffic of other lanes do not matter. */
  lemma DeliveredWhenEnough(events: seq<Event>, timeout: real, key: Key, ps: seq<Bytes>, last: nat)
    requires GenuineFor(events, key, ps)
    requires OpensInOrder(events, key) && Punctual(events, key, last, timeout) && Sweeps(events, timeout)
    requires Count(HeardIn(events[..last + 1], key)) >= |ps|
    ensures exists i :: && 0 <= i < |Run(events, timeout).log|
                        && Run(events, timeout).log[i].key == key && Run(events, timeout).log[i].complete
                        && Delivered(Run(events, timeout).log[i].payloads, ps)
                        && forall j :: 0 <= j < |Run(events, timeout).log| && Run(events, timeout).log[j].key == key ==> j == i
  {
    hide Run, HeardIn, Delivered, HonestClosing, Punctual, Sweeps, OpensInOrder, Later;
    LastInRange(events, key, last, timeout);
    StayOnTrack(events, last + 1, timeout, key, ps, last);
    HistoryOnlyGrows(events, last + 1, timeout);
    FinishedStays(Run(events[..last + 1], timeout), Run(events, timeout), key);
    ExactlyOnce(events, timeout);
    var s := Run(events, timeout);
    var i :| 0 <= i < |s.log| && s.log[i].key == key && s.log[i].complete;
    Integrity(events, timeout, key, ps, i);
    HonestCounts(s.log[i], ps, HeardIn(events, key));
  }

  lemma {:induction false} NothingMoreHeard(events: seq<Event>, n: nat, key: Key)
    requires n <= |events| && forall i :: n <= i < |events| ==> !IsArrival(events[i], key)
    ensures HeardIn(events, key) == HeardIn(events[..n], key)
    decreases |events|
  {
    hide IsArrival;
    if n == |events| {
      assert events[..n] == events;
    } else {
      var front := events[..|events| - 1];
      assert front[..n] == events[..n];
      NothingMoreHeard(front, n, key);
      CountGrows(HeardIn(front, key), events[|events| - 1], key);
    }
  }

  /** MAIN: when the group's last arrival is on time, the group is finalised as complete if
      and only if all but at most one of its distinct packets arrived. */
  lemma CompleteExactlyWhenEnough(events: seq<Event>, timeout: real, key: Key, ps: seq<Bytes>, last: nat)
    requires GenuineFor(events, key, ps)
    requires OpensInOrder(events, key) && Punctual(events, key, last, timeout) && Sweeps(events, timeout)
    requires forall i :: last < i < |events| ==> !IsArrival(events[i], key)
    ensures Finished(Run(events, timeout), key) <==> Count(HeardIn(events, key)) >= |ps|
  {
    hide Run, HeardIn, Delivered, HonestClosing, Punctual, Sweeps, OpensInOrder, GenuineFor, IsArrival;
    LastInRange(events, key, last, timeout);
    NothingMoreHeard(events, last + 1, key);
    if Count(HeardIn(events, key)) >= |ps| {
      DeliveredWhenEnough(events, timeout, key, ps, last);
    }
    if Finished(Run(events, timeout), key) {
      var s := Run(events, timeout);
      var i :| 0 <= i < |s.log| && s.log[i].key == key && s.log[i].complete;
      Integrity(events, timeout, key, ps, i);
    }
  }
}
