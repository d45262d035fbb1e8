/** The receiver: groups are reassembled, rebuilt when one payload is missing, closed once
    complete or timed out, and never reopened (gcs/tools/fec_core.py).

    Clock readings are inputs.  The order in which a sweep visits the open groups is an
    input too: what is proved holds for every order.  An IndexError inside try_recover
    ends the sweep and loses that call's payload list, as the exception does. */
module FecDecoder {
  import opened FecPacket
  import opened FecParity
  import opened Wrappers

  datatype Key = Key(lane: nat, group: nat)

  datatype Group = Group(size: nat, data: map<nat, Bytes>, parity: Option<Bytes>, firstSeen: real)

  datatype Recovery = Complete(payloads: map<nat, Bytes>) | Incomplete | IndexError

  datatype Stats = Stats(dataPkts: nat, parityPkts: nat, crcFail: nat, staleDropped: nat,
                         delivered: nat, recovered: nat, lost: int)

  /** A record of one finalised group. */
  datatype Closing = Closing(key: Key, size: nat, got: nat, complete: bool, payloads: map<nat, Bytes>)

  /** The receiver's dictionaries and counters, with the history of finalised groups. */
  datatype State = State(groups: map<Key, Group>, high: map<nat, int>, stats: Stats, log: seq<Closing>)

  const INITIAL: State := State(map[], map[], Stats(0, 0, 0, 0, 0, 0, 0), [])

  // ---------- try_recover

  function Missing(g: Group): set<nat> {
    set i: nat | i < g.size && i !in g.data
  }

  predicate FitsParity(g: Group)
    requires g.parity.Some?
  {
    forall k :: k in g.data ==> |g.data[k]| <= |g.parity.value|
  }

  function TheMissing(g: Group, i: nat): nat
    requires exists m :: i <= m < g.size && m !in g.data
    decreases g.size - i
  {
    if i !in g.data then i else TheMissing(g, i + 1)
  }

  /** The group's payloads once none is missing, or one is and the parity is there. */
  function TryRecover(g: Group): Recovery {
    if Missing(g) == {} then Complete(g.data)
    else if |Missing(g)| == 1 && g.parity.Some? then
      if !FitsParity(g) then IndexError
      else
        assert TheMissing.requires(g, 0) by { var m :| m in Missing(g); }
        Complete(g.data[TheMissing(g, 0) := StripZeros(Rebuilt(g.parity.value, g.data))])
    else Incomplete
  }

  lemma {:induction false} TheMissingIs(g: Group, i: nat, m: nat)
    requires i <= m < g.size && m !in g.data
    requires forall j :: i <= j < m ==> j in g.data
    ensures TheMissing(g, i) == m
    decreases m - i
  {
    if i < m {
      TheMissingIs(g, i + 1, m);
    }
  }

  lemma OnlyMissing(g: Group, m: nat)
    requires m < g.size && m !in g.data && |Missing(g)| == 1
    ensures Missing(g) == {m} && TheMissing(g, 0) == m
  {
    assert m in Missing(g);
    assert |Missing(g) - {m}| == 0;
    assert Missing(g) == {m};
    assert forall j :: 0 <= j < g.size && j !in g.data ==> j in Missing(g);
    TheMissingIs(g, 0, m);
  }

  /** try_recover, with its list of missing indices and its in-place exclusive or. */
  method TryRecoverGroup(g: Group) returns (r: Recovery)
    requires forall k :: k in g.data ==> k < 256
    ensures r == TryRecover(g)
  {
    hide Xor, At, StripZeros;
    var missing: seq<nat> := [];
    for i := 0 to g.size
      invariant forall j :: j in missing <==> 0 <= j < i && j !in g.data
      invariant forall a, b :: 0 <= a < b < |missing| ==> missing[a] != missing[b]
    {
      if i !in g.data {
        missing := missing + [i];
      }
    }
    assert forall j :: j in missing <==> j in Missing(g);
    SetOfSeq(missing, Missing(g));
    if missing == [] {
      assert Missing(g) == {};
      return Complete(g.data);
    }
    assert missing[0] in Missing(g);
    if |missing| == 1 && g.parity.Some? {
      var recovered := MixAll(g.parity.value, g.data);
      if recovered.None? {
        return IndexError;
      }
      var trimmed := Strip(recovered.value);
      OnlyMissing(g, missing[0]);
      return Complete(g.data[missing[0] := trimmed]);
    }
    return Incomplete;
  }

  /** todo and done partition a dictionary that is being walked. */
  ghost predicate Walk(todo: set<nat>, done: map<nat, Bytes>, m: map<nat, Bytes>) {
    && todo !! done.Keys && todo + done.Keys == m.Keys
    && forall k :: k in done ==> done[k] == m[k]
  }

  lemma WalkStart(m: map<nat, Bytes>)
    ensures Walk(m.Keys, map[], m)
  {
  }

  lemma WalkStep(todo: set<nat>, done: map<nat, Bytes>, m: map<nat, Bytes>, k: nat)
    requires Walk(todo, done, m) && k in todo
    ensures k in m && k !in done && Walk(todo - {k}, done[k := m[k]], m)
  {
  }

  lemma WalkEnd(todo: set<nat>, done: map<nat, Bytes>, m: map<nat, Bytes>)
    requires Walk(todo, done, m) && todo == {}
    ensures done == m
  {
    assert done.Keys == m.Keys;
  }

  /** The parity with every held payload mixed in, or None for an index out of range. */
  method MixAll(parity: Bytes, data: map<nat, Bytes>) returns (r: Option<Bytes>)
    requires forall k :: k in data ==> k < 256
    ensures r.None? <==> exists k :: k in data && |data[k]| > |parity|
    ensures r.Some? ==> r.value == Rebuilt(parity, data)
  {
    hide Xor, At, Walk;
    var buf := new bv8[|parity|](i requires 0 <= i < |parity| => parity[i]);
    var todo := data.Keys;
    ghost var done: map<nat, Bytes> := map[];
    WalkStart(data);
    forall i | 0 <= i < |parity|
      ensures buf[i] == Xor(parity[i], XorPresent(done, 256, i))
    {
      XorPresentPast(done, 0, 256, i);
      XorZero(parity[i]);
    }
    while todo != {}
      invariant Walk(todo, done, data)
      invariant forall k :: k in done ==> k in data && |data[k]| <= |parity|
      invariant forall i :: 0 <= i < |parity| ==> buf[i] == Xor(parity[i], XorPresent(done, 256, i))
      decreases |todo|
    {
      var k :| k in todo;
      WalkStep(todo, done, data, k);
      var payload := data[k];
      if |payload| > |parity| {
        return None;
      }
      MixIn(buf, payload);
      forall i | 0 <= i < |parity|
        ensures buf[i] == Xor(parity[i], XorPresent(done[k := payload], 256, i))
      {
        XorPresentAdd(done, k, payload, 256, i);
        XorGroups(parity[i], XorPresent(done, 256, i), At(payload, i));
      }
      todo, done := todo - {k}, done[k := payload];
    }
    WalkEnd(todo, done, data);
    r := Some(buf[..]);
  }

  /** Mixes a payload into the front of the buffer, in place; the rest stays. */
  method MixIn(buf: array<bv8>, payload: Bytes)
    requires |payload| <= buf.Length
    modifies buf
    ensures forall i :: 0 <= i < buf.Length ==> buf[i] == Xor(old(buf[i]), At(payload, i))
  {
    hide Xor, At;
    for i := 0 to |payload|
      invariant forall j :: 0 <= j < i ==> buf[j] == Xor(old(buf[j]), payload[j])
      invariant forall j :: i <= j < buf.Length ==> buf[j] == old(buf[j])
    {
      buf[i] := Xor(buf[i], payload[i]);
    }
    forall i | 0 <= i < buf.Length
      ensures buf[i] == Xor(old(buf[i]), At(payload, i))
    {
      AtPadded(payload, i);
      XorZero(old(buf[i]));
    }
  }

  lemma XorGroups(a: bv8, b: bv8, c: bv8)
    ensures Xor(Xor(a, b), c) == Xor(a, Xor(b, c))
  {
  }

  method Strip(p: Bytes) returns (r: Bytes)
    ensures r == StripZeros(p)
  {
    r := p;
    while r != [] && r[|r| - 1] == 0
      invariant StripZeros(r) == StripZeros(p)
      decreases |r|
    {
      r := r[..|r| - 1];
    }
  }

  lemma {:induction false} SetOfSeq(s: seq<nat>, t: set<nat>)
    requires forall j :: j in s <==> j in t
    requires forall a, b :: 0 <= a < b < |s| ==> s[a] != s[b]
    ensures |s| == |t|
    decreases s
  {
    if s == [] {
      assert t == {};
    } else {
      var last := s[|s| - 1];
      assert forall j :: j in s[..|s| - 1] <==> j in t - {last};
      SetOfSeq(s[..|s| - 1], t - {last});
    }
  }

  // ---------- poll

  function High(s: State, lane: nat): int {
    if lane in s.high then s.high[lane] else -1
  }

  /** A datagram's effect on the dictionaries and counters. */
  function Receive(s: State, raw: Option<Bytes>, created: real): State {
    if raw.None? then s
    else
      match Parse(raw.value)
      case TooShort => s
      case Corrupt => s.(stats := s.stats.(crcFail := s.stats.crcFail + 1))
      case Accepted(ptype, lane, laneGroup, groupSeq, groupSize, payload) =>
        var key := Key(lane, laneGroup);
        if key !in s.groups && laneGroup <= High(s, lane) then
          s.(stats := s.stats.(staleDropped := s.stats.staleDropped + 1))
        else
          var g := if key in s.groups then s.groups[key] else Group(groupSize, map[], None, created);
          if ptype == TYPE_DATA then
            s.(groups := s.groups[key := g.(data := g.data[groupSeq := payload])],
               stats := s.stats.(dataPkts := s.stats.dataPkts + 1))
          else if ptype == TYPE_PARITY then
            s.(groups := s.groups[key := g.(parity := Some(payload))],
               stats := s.stats.(parityPkts := s.stats.parityPkts + 1))
          else s.(groups := s.groups[key := g])
  }

  /** Finalising a group: it leaves the dictionaries and its lane's watermark rises. */
  function Close(s: State, key: Key, payloads: map<nat, Bytes>, complete: bool): State
    requires key in s.groups
  {
    var g := s.groups[key];
    var got := |g.data|;
    var high := High(s, key.lane);
    State(s.groups - {key},
          s.high[key.lane := if high < key.group then key.group else high],
          s.stats.(delivered := s.stats.delivered + got,
                   recovered := s.stats.recovered + (if complete && got < g.size then g.size - got else 0),
                   lost := s.stats.lost + (if complete then 0 else g.size - got)),
          s.log + [Closing(key, g.size, got, complete, payloads)])
  }

  predicate TimedOut(g: Group, now: real, timeout: real) {
    now - g.firstSeen > timeout
  }

  datatype Swept = Swept(state: State, raised: bool)

  /** The sweep's treatment of one open group. */
  function Settle(s: State, key: Key, now: real, timeout: real): Swept {
    if key !in s.groups then Swept(s, false)
    else
      var g := s.groups[key];
      match TryRecover(g)
      case IndexError => Swept(s, true)
      case Complete(payloads) => Swept(Close(s, key, payloads, true), false)
      case Incomplete => if TimedOut(g, now, timeout) then Swept(Close(s, key, g.data, false), false) else Swept(s, false)
  }

  function Sweep(s: State, order: seq<Key>, now: real, timeout: real): Swept
    decreases order
  {
    if order == [] then Swept(s, false)
    else
      var r := Settle(s, order[0], now, timeout);
      if r.raised then r else Sweep(r.state, order[1..], now, timeout)
  }

  /** One call of poll: at most one datagram, then a sweep. */
  datatype Event = Event(raw: Option<Bytes>, created: real, now: real, order: seq<Key>)

  /** The event delivers an accepted packet of the group. */
  predicate IsArrival(e: Event, key: Key) {
    e.raw.Some? &&
    var a := Parse(e.raw.value);
    a.Accepted? && Key(a.lane, a.laneGroup) == key
  }

  function Poll(s: State, e: Event, timeout: real): Swept {
    Sweep(Receive(s, e.raw, e.created), e.order, e.now, timeout)
  }

  /** The state after any sequence of calls. */
  function Run(events: seq<Event>, timeout: real): State {
    if events == [] then INITIAL
    else Poll(Run(events[..|events| - 1], timeout), events[|events| - 1], timeout).state
  }

  /** A call's sweep only adds to the history. */
  lemma PollExtends(s: State, e: Event, timeout: real)
    ensures s.log <= Poll(s, e, timeout).state.log
  {
    hide Parse, Sweep;
    SweepExtends(Receive(s, e.raw, e.created), e.order, e.now, timeout);
  }

  lemma {:induction false} SweepExtends(s: State, order: seq<Key>, now: real, timeout: real)
    ensures s.log <= Sweep(s, order, now, timeout).state.log
    decreases order
  {
    hide TryRecover;
    if order != [] && !Settle(s, order[0], now, timeout).raised {
      SweepExtends(Settle(s, order[0], now, timeout).state, order[1..], now, timeout);
    }
  }

  ghost predicate Enumerates(order: seq<Key>, keys: set<Key>) {
    forall k :: k in keys <==> k in order
  }

  // ---------- The receiver object

  /** The payloads of a dictionary with byte-sized keys, as a bag. */
  ghost function Bag(m: map<nat, Bytes>, n: nat): multiset<Bytes>
    decreases n
  {
    if n == 0 then multiset{} else Bag(m, n - 1) + (if n - 1 in m then multiset{m[n - 1]} else multiset{})
  }

  ghost function Output(closings: seq<Closing>): multiset<Bytes> {
    if closings == [] then multiset{}
    else Output(closings[..|closings| - 1]) + Bag(closings[|closings| - 1].payloads, 256)
  }

  /** What one call returns: the payloads of the groups it finalised, or nothing when it
      raises. */
  ghost function Returned(s: State, e: Event, timeout: real): multiset<Bytes> {
    PollExtends(s, e, timeout);
    var r := Poll(s, e, timeout);
    if r.raised then multiset{} else Output(r.state.log[|s.log|..])
  }

  /** What all calls of a run return. */
  ghost function AllReturned(events: seq<Event>, timeout: real): multiset<Bytes> {
    if events == [] then multiset{}
    else
      var n := |events| - 1;
      AllReturned(events[..n], timeout) + Returned(Run(events[..n], timeout), events[n], timeout)
  }

  /** Group sizes and payload indices are header bytes. */
  predicate InRange(g: Group) {
    g.size < 256 && forall k :: k in g.data ==> k < 256
  }

  predicate ByteKeys(s: State) {
    forall key :: key in s.groups ==> InRange(s.groups[key])
  }

  class Receiver {
    const timeout: real
    var groups: map<Key, Group>
    var high: map<nat, int>
    var stats: Stats
    ghost var log: seq<Closing>

    ghost function Now(): State
      reads this
    {
      State(groups, high, stats, log)
    }

    constructor (timeoutSeconds: real)
      ensures Now() == INITIAL && timeout == timeoutSeconds
    {
      timeout := timeoutSeconds;
      groups, high, stats, log := map[], map[], Stats(0, 0, 0, 0, 0, 0, 0), [];
    }

    /** poll: returns the payload list, or reports the exception; `order` is the order in
        which the sweep visited the open groups. */
    method PollOnce(raw: Option<Bytes>, created: real, now: real)
      returns (out: seq<Bytes>, raised: bool, ghost order: seq<Key>)
      requires ByteKeys(Now())
      modifies this
      ensures Enumerates(order, Receive(old(Now()), raw, created).groups.Keys)
      ensures Now() == Poll(old(Now()), Event(raw, created, now, order), timeout).state
      ensures raised == Poll(old(Now()), Event(raw, created, now, order), timeout).raised
      ensures multiset(out) == Returned(old(Now()), Event(raw, created, now, order), timeout)
      ensures ByteKeys(Now())
    {
      hide TryRecover, Bag, Parse, Output, Receive, Settle, Sweep, ByteKeys;
      ghost var received := Receive(Now(), raw, created);
      ReceiveDatagram(raw, created);
      var keys := SomeOrder();
      order := keys;
      out, raised := [], false;
      OutputNothing();
      assert log[|old(log)|..] == [];
      assert keys[0..] == keys;
      for i := 0 to |keys|
        invariant ByteKeys(Now()) && old(log) <= log && !raised
        invariant multiset(out) == Output(log[|old(log)|..])
        invariant Sweep(Now(), keys[i..], now, timeout) == Sweep(received, keys, now, timeout)
      {
        ghost var before := Now();
        SweepStep(before, keys, i, now, timeout);
        var payloads;
        payloads, raised := SettleOne(keys[i], now);
        if raised {
          out := [];
          return;
        }
        out := out + payloads;
        OutputGrows(log[|old(log)|..], before.log[|old(log)|..]);
      }
      SweepEnd(Now(), keys, now, timeout);
    }

    method ReceiveDatagram(raw: Option<Bytes>, created: real)
      requires ByteKeys(Now())
      modifies this
      ensures Now() == Receive(old(Now()), raw, created) && log == old(log)
      ensures ByteKeys(Now())
    {
      hide Parse, Bag, Output;
      if raw == None {
        return;
      }
      match Parse(raw.value) {
        case TooShort =>
        case Corrupt => stats := stats.(crcFail := stats.crcFail + 1);
        case Accepted(ptype, lane, laneGroup, groupSeq, groupSize, payload) =>
          AcceptedInRange(raw.value);
          var key := Key(lane, laneGroup);
          if key !in groups && laneGroup <= (if lane in high then high[lane] else -1) {
            stats := stats.(staleDropped := stats.staleDropped + 1);
          } else {
            if key !in groups {
              groups := groups[key := Group(groupSize, map[], None, created)];
            }
            var g := groups[key];
            if ptype == TYPE_DATA {
              groups := groups[key := g.(data := g.data[groupSeq := payload])];
              stats := stats.(dataPkts := stats.dataPkts + 1);
            } else if ptype == TYPE_PARITY {
              groups := groups[key := g.(parity := Some(payload))];
              stats := stats.(parityPkts := stats.parityPkts + 1);
            }
          }
      }
    }

    /** A snapshot of the open groups' keys, in some order. */
    method SomeOrder() returns (order: seq<Key>)
      ensures Enumerates(order, groups.Keys)
    {
      var todo := groups.Keys;
      order := [];
      while todo != {}
        invariant todo <= groups.Keys
        invariant forall k :: k in groups.Keys <==> k in todo || k in order
        decreases |todo|
      {
        var k :| k in todo;
        todo, order := todo - {k}, order + [k];
      }
    }

    method SettleOne(key: Key, now: real) returns (payloads: seq<Bytes>, raised: bool)
      requires ByteKeys(Now())
      modifies this
      ensures Swept(Now(), raised) == Settle(old(Now()), key, now, timeout)
      ensures ByteKeys(Now())
      ensures if Now().log == old(log) then payloads == []
              else |log| == |old(log)| + 1 && old(log) <= log && multiset(payloads) == Bag(log[|old(log)|].payloads, 256)
    {
      hide TryRecover, Bag;
      payloads, raised := [], false;
      if key !in groups {
        return;
      }
      var g := groups[key];
      var complete := TryRecoverGroup(g);
      match complete {
        case IndexError => raised := true;
        case Complete(m) =>
          RecoveryByteKeys(g);
          payloads := Values(m);
          CloseGroup(key, m, true);
        case Incomplete =>
          if now - g.firstSeen > timeout {
            payloads := Values(g.data);
            CloseGroup(key, g.data, false);
          }
      }
    }

    method CloseGroup(key: Key, payloads: map<nat, Bytes>, complete: bool)
      requires key in groups && ByteKeys(Now())
      modifies this
      ensures Now() == Close(old(Now()), key, payloads, complete)
      ensures ByteKeys(Now())
    {
      var g := groups[key];
      var got := |g.data|;
      stats := stats.(delivered := stats.delivered + got);
      if complete {
        stats := stats.(recovered := stats.recovered + if got < g.size then g.size - got else 0);
      } else {
        stats := stats.(lost := stats.lost + g.size - got);
      }
      groups := groups - {key};
      var mark := if key.lane in high then high[key.lane] else -1;
      high := high[key.lane := if mark < key.group then key.group else mark];
      log := log + [Closing(key, g.size, got, complete, payloads)];
    }
  }

  /** What one call of poll meets: the datagram that waited, if any, and two clock readings. */
  datatype Call = Call(raw: Option<Bytes>, created: real, now: real)

  /** The events are the first of these calls, each with some order of its sweep. */
  predicate Happens(calls: seq<Call>, events: seq<Event>) {
    && |events| <= |calls|
    && forall i :: 0 <= i < |events| ==> Call(events[i].raw, events[i].created, events[i].now) == calls[i]
  }

  /** Each sweep visited every open group. */
  ghost predicate VisitsAll(events: seq<Event>, n: nat, timeout: real)
    requires n < |events|
  {
    Enumerates(events[n].order, Receive(Run(events[..n], timeout), events[n].raw, events[n].created).groups.Keys)
  }

  /** A new receiver polled over and over, until a call raises. */
  method PollAll(calls: seq<Call>, timeout: real)
    returns (out: seq<Bytes>, raised: bool, ghost events: seq<Event>)
    ensures Happens(calls, events) && forall n :: 0 <= n < |events| ==> VisitsAll(events, n, timeout)
    ensures raised || |events| == |calls|
    ensures raised ==> events != []
    ensures forall n :: 0 <= n < |events| ==> (RaisesAt(events, n, timeout) <==> raised && n == |events| - 1)
    ensures multiset(out) == AllReturned(events, timeout)
  {
    hide Receive, Sweep, Output, Enumerates, Returned, RaisesAt;
    var d := new Receiver(timeout);
    out, raised, events := [], false, [];
    for i := 0 to |calls|
      invariant |events| == i && Happens(calls, events)
      invariant forall n :: 0 <= n < |events| ==> VisitsAll(events, n, timeout)
      invariant fresh(d) && d.timeout == timeout && ByteKeys(d.Now()) && d.Now() == Run(events, timeout)
      invariant !raised && forall n :: 0 <= n < |events| ==> !RaisesAt(events, n, timeout)
      invariant multiset(out) == AllReturned(events, timeout)
    {
      var c := calls[i];
      var payloads;
      ghost var order;
      payloads, raised, order := d.PollOnce(c.raw, c.created, c.now);
      ghost var e := Event(c.raw, c.created, c.now, order);
      EventAdded(events, e, timeout);
      events := events + [e];
      out := out + payloads;
      if raised {
        return;
      }
    }
  }

  ghost predicate RaisesAt(events: seq<Event>, n: nat, timeout: real)
    requires n < |events|
  {
    Poll(Run(events[..n], timeout), events[n], timeout).raised
  }

  lemma EventAdded(events: seq<Event>, e: Event, timeout: real)
    ensures Run(events + [e], timeout) == Poll(Run(events, timeout), e, timeout).state
    ensures (events + [e])[|events|] == e && (events + [e])[..|events|] == events
    ensures AllReturned(events + [e], timeout) == AllReturned(events, timeout) + Returned(Run(events, timeout), e, timeout)
    ensures RaisesAt(events + [e], |events|, timeout) <==> Poll(Run(events, timeout), e, timeout).raised
    ensures forall n :: 0 <= n < |events| ==> (VisitsAll(events + [e], n, timeout) <==> VisitsAll(events, n, timeout))
    ensures forall n :: 0 <= n < |events| ==> (RaisesAt(events + [e], n, timeout) <==> RaisesAt(events, n, timeout))
  {
    hide Poll, Receive, Enumerates, Returned;
    assert (events + [e])[..|events|] == events;
    forall n | 0 <= n < |events|
      ensures VisitsAll(events + [e], n, timeout) <==> VisitsAll(events, n, timeout)
      ensures RaisesAt(events + [e], n, timeout) <==> RaisesAt(events, n, timeout)
    {
      assert (events + [e])[..n] == events[..n];
    }
  }

  lemma {:induction false} OutputJoins(log: seq<Closing>, more: seq<Closing>)
    requires log <= more
    ensures Output(more) == Output(log) + Output(more[|log|..])
    decreases |more|
  {
    hide Bag;
    if log == more {
      assert more[|log|..] == [];
    } else {
      var front, tail := more[..|more| - 1], more[|log|..];
      OutputJoins(log, front);
      assert tail[..|tail| - 1] == front[|log|..];
    }
  }

  /** The values a map holds, in some order. */
  method Values(m: map<nat, Bytes>) returns (out: seq<Bytes>)
    requires forall k :: k in m ==> k < 256
    ensures multiset(out) == Bag(m, 256)
  {
    hide Bag, Walk;
    var todo := m.Keys;
    ghost var done: map<nat, Bytes> := map[];
    out := [];
    WalkStart(m);
    BagEmpty(256);
    while todo != {}
      invariant Walk(todo, done, m)
      invariant multiset(out) == Bag(done, 256)
      decreases |todo|
    {
      var k :| k in todo;
      WalkStep(todo, done, m, k);
      BagAdd(done, k, m[k], 256);
      out := out + [m[k]];
      todo, done := todo - {k}, done[k := m[k]];
    }
    WalkEnd(todo, done, m);
  }

  lemma {:induction false} BagEmpty(n: nat)
    ensures Bag(map[], n) == multiset{}
    decreases n
  {
    if n > 0 {
      BagEmpty(n - 1);
    }
  }

  lemma {:induction false} BagAdd(m: map<nat, Bytes>, k: nat, p: Bytes, n: nat)
    requires k !in m
    ensures Bag(m[k := p], n) == Bag(m, n) + (if k < n then multiset{p} else multiset{})
    decreases n
  {
    if n > 0 {
      BagAdd(m, k, p, n - 1);
      BagAt(m, n);
      BagAt(m[k := p], n);
      if k == n - 1 {
        AtNew(m, k, p);
      } else {
        AtOther(m, k, p, n - 1);
        Regrouped(Bag(m, n - 1), if k < n then multiset{p} else multiset{}, OneAt(m, n - 1));
      }
      hide *;
    }
  }

  lemma Regrouped(a: multiset<Bytes>, b: multiset<Bytes>, c: multiset<Bytes>)
    ensures a + b + c == a + c + b
  {
  }

  ghost function OneAt(m: map<nat, Bytes>, k: nat): multiset<Bytes> {
    if k in m then multiset{m[k]} else multiset{}
  }

  lemma BagAt(m: map<nat, Bytes>, n: nat)
    requires n > 0
    ensures Bag(m, n) == Bag(m, n - 1) + OneAt(m, n - 1)
  {
  }

  lemma AtNew(m: map<nat, Bytes>, k: nat, p: Bytes)
    requires k !in m
    ensures OneAt(m, k) == multiset{} && OneAt(m[k := p], k) == multiset{p}
  {
  }

  lemma AtOther(m: map<nat, Bytes>, k: nat, p: Bytes, i: nat)
    requires i != k
    ensures OneAt(m[k := p], i) == OneAt(m, i)
  {
  }

  lemma RecoveryByteKeys(g: Group)
    requires TryRecover(g).Complete? && InRange(g)
    ensures forall k :: k in TryRecover(g).payloads ==> k < 256
  {
    hide StripZeros, Rebuilt;
    if Missing(g) != {} {
      var m :| m in Missing(g);
      OnlyMissing(g, m);
    }
  }

  lemma SweepStep(s: State, order: seq<Key>, i: nat, now: real, timeout: real)
    requires i < |order|
    ensures var r := Settle(s, order[i], now, timeout);
            Sweep(s, order[i..], now, timeout)
            == if r.raised then r else Sweep(r.state, order[i + 1..], now, timeout)
  {
    hide Settle;
    assert order[i..][0] == order[i] && order[i..][1..] == order[i + 1..];
  }

  lemma SweepEnd(s: State, order: seq<Key>, now: real, timeout: real)
    ensures Sweep(s, order[|order|..], now, timeout) == Swept(s, false)
  {
  }

  /** While no call raises, everything the finalised groups held is returned. */
  lemma {:induction false} ReturnedIsOutput(events: seq<Event>, timeout: real)
    requires forall n :: 0 <= n < |events| ==> !RaisesAt(events, n, timeout)
    ensures AllReturned(events, timeout) == Output(Run(events, timeout).log)
    decreases events
  {
    hide Poll, Output;
    OutputNothing();
    if events != [] {
      var n := |events| - 1;
      forall i | 0 <= i < n
        ensures !RaisesAt(events[..n], i, timeout)
      {
        assert events[..n][..i] == events[..i];
        assert !RaisesAt(events, i, timeout);
      }
      ReturnedIsOutput(events[..n], timeout);
      assert !RaisesAt(events, n, timeout);
      PollExtends(Run(events[..n], timeout), events[n], timeout);
      OutputJoins(Run(events[..n], timeout).log, Run(events, timeout).log);
    }
  }

  lemma OutputNothing()
    ensures Output([]) == multiset{}
  {
  }

  lemma OutputGrows(log: seq<Closing>, before: seq<Closing>)
    requires before == log || (|log| == |before| + 1 && before == log[..|before|])
    ensures before == log ==> Output(log) == Output(before)
    ensures before != log ==> Output(log) == Output(before) + Bag(log[|before|].payloads, 256)
  {
  }
}
