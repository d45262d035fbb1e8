/** When every group is completed and loses at most one packet, the receiver hands out exactly
    the payloads that were submitted. */
module FecRoundTrip {
  import opened FecPacket
  import opened FecParity
  import opened FecEncoder
  import opened FecStream
  import opened FecDecoder
  import opened FecSafety
  import opened FecLink
  import Quotients
  import opened Wrappers

  // ---------- Groups that were finalised had arrived

  ghost predicate Mentions(s: State, key: Key) {
    key in s.groups || exists i :: 0 <= i < |s.log| && s.log[i].key == key
  }

  lemma {:induction false} SweepMentions(s: State, order: seq<Key>, now: real, timeout: real, key: Key)
    requires Mentions(Sweep(s, order, now, timeout).state, key)
    ensures Mentions(s, key)
    decreases order
  {
    hide Settle, Mentions;
    if order != [] {
      var r := Settle(s, order[0], now, timeout);
      if !r.raised {
        SweepMentions(r.state, order[1..], now, timeout, key);
      }
      SettleMentions(s, order[0], now, timeout, key);
    }
  }

  lemma SettleMentions(s: State, first: Key, now: real, timeout: real, key: Key)
    requires Mentions(Settle(s, first, now, timeout).state, key)
    ensures Mentions(s, key)
  {
    hide TryRecover;
    var s' := Settle(s, first, now, timeout).state;
    if key !in s'.groups {
      var i :| 0 <= i < |s'.log| && s'.log[i].key == key;
      assert i < |s.log| ==> s.log[i] == s'.log[i];
    }
  }

  lemma ReceiveMentions(s: State, e: Event, key: Key)
    requires Mentions(Receive(s, e.raw, e.created), key)
    ensures Mentions(s, key) || IsArrival(e, key)
  {
    hide Parse;
  }

  lemma {:induction false} MentionedArrived(events: seq<Event>, timeout: real, key: Key)
    requires Mentions(Run(events, timeout), key)
    ensures exists i :: 0 <= i < |events| && IsArrival(events[i], key)
    decreases events
  {
    hide Receive, Sweep, IsArrival;
    if events != [] {
      var n := |events| - 1;
      var s, e := Run(events[..n], timeout), events[n];
      hide Mentions;
      SweepMentions(Receive(s, e.raw, e.created), e.order, e.now, timeout, key);
      ReceiveMentions(s, e, key);
      if !IsArrival(e, key) {
        MentionedArrived(events[..n], timeout, key);
        var i :| 0 <= i < n && IsArrival(events[..n][i], key);
        assert IsArrival(events[i], key);
      }
    }
  }

  // ---------- Bags of payloads, group by group

  lemma {:induction false} BagOfGroup(m: map<nat, Bytes>, part: seq<Bytes>, n: nat)
    requires IsGroup(m, part)
    ensures Bag(m, n) == multiset(part[..if n < |part| then n else |part|])
    decreases n
  {
    hide IsGroup;
    if n > 0 {
      BagOfGroup(m, part, n - 1);
      BagStep(m, part, n);
    }
  }

  lemma BagStep(m: map<nat, Bytes>, part: seq<Bytes>, n: nat)
    requires IsGroup(m, part) && n > 0
    ensures n <= |part| ==>
              Bag(m, n) == Bag(m, n - 1) + multiset{part[n - 1]} && part[..n] == part[..n - 1] + [part[n - 1]]
    ensures n > |part| ==> Bag(m, n) == Bag(m, n - 1)
  {
  }

  /** The payloads of all these groups. */
  ghost function Contents(ps: seq<Bytes>, lanes: nat, size: nat, keys: seq<Key>): multiset<Bytes>
    requires lanes > 0
  {
    if keys == [] then multiset{}
    else Contents(ps, lanes, size, keys[..|keys| - 1]) + multiset(Payloads(ps, lanes, size, keys[|keys| - 1]))
  }

  lemma {:induction false} ContentsJoin(ps: seq<Bytes>, lanes: nat, size: nat, a: seq<Key>, b: seq<Key>)
    requires lanes > 0
    ensures Contents(ps, lanes, size, a + b) == Contents(ps, lanes, size, a) + Contents(ps, lanes, size, b)
    decreases b
  {
    hide Payloads;
    if b == [] {
      assert a + b == a;
    } else {
      assert (a + b)[..|a + b| - 1] == a + b[..|b| - 1];
      ContentsJoin(ps, lanes, size, a, b[..|b| - 1]);
    }
  }

  lemma ContentsOne(ps: seq<Bytes>, lanes: nat, size: nat, key: Key)
    requires lanes > 0
    ensures Contents(ps, lanes, size, [key]) == multiset(Payloads(ps, lanes, size, key))
  {
    assert [key][..0] == [];
  }

  ghost predicate Distinct(keys: seq<Key>) {
    forall i, j :: 0 <= i < j < |keys| ==> keys[i] != keys[j]
  }

  /** The order of the groups does not matter. */
  lemma {:induction false} ContentsOfSame(ps: seq<Bytes>, lanes: nat, size: nat, a: seq<Key>, b: seq<Key>)
    requires lanes > 0 && Distinct(a) && Distinct(b) && forall key :: key in a <==> key in b
    ensures Contents(ps, lanes, size, a) == Contents(ps, lanes, size, b)
    decreases a
  {
    hide *;
    if a == [] {
      NoMembers(b);
      assert b == a;
    } else {
      var n := |a| - 1;
      assert a[n] in a;
      var i :| 0 <= i < |b| && b[i] == a[n];
      DistinctFront(a);
      RestIsDistinct(b, i);
      ContentsOfSame(ps, lanes, size, a[..n], b[..i] + b[i + 1..]);
      ContentsMoved(ps, lanes, size, b, i);
      ContentsJoin(ps, lanes, size, a[..n], [a[n]]);
      assert a[..n] + [a[n]] == a;
    }
  }

  lemma NoMembers(b: seq<Key>)
    requires forall key :: key !in b
    ensures b == []
  {
    if b != [] {
      HasMember(b);
    }
  }

  lemma HasMember(b: seq<Key>)
    requires b != []
    ensures exists key :: key in b
  {
    assert b[0] in b;
  }

  lemma DistinctFront(a: seq<Key>)
    requires a != [] && Distinct(a)
    ensures var n := |a| - 1; Distinct(a[..n]) && forall key :: key in a[..n] <==> key in a && key != a[n]
  {
    var n := |a| - 1;
    assert a == a[..n] + [a[n]];
  }

  lemma RestIsDistinct(b: seq<Key>, i: nat)
    requires i < |b| && Distinct(b)
    ensures var rest := b[..i] + b[i + 1..]; Distinct(rest) && forall key :: key in rest <==> key in b && key != b[i]
  {
    var rest := b[..i] + b[i + 1..];
    assert forall j :: 0 <= j < |rest| ==> rest[j] == b[if j < i then j else j + 1];
    forall key | key in b && key != b[i]
      ensures key in rest
    {
      var j :| 0 <= j < |b| && b[j] == key;
      assert rest[if j < i then j else j - 1] == key;
    }
  }

  lemma ContentsMoved(ps: seq<Bytes>, lanes: nat, size: nat, b: seq<Key>, i: nat)
    requires lanes > 0 && i < |b|
    ensures Contents(ps, lanes, size, b)
         == Contents(ps, lanes, size, b[..i] + b[i + 1..]) + Contents(ps, lanes, size, [b[i]])
  {
    hide Contents;
    assert b == b[..i] + [b[i]] + b[i + 1..];
    ContentsJoin(ps, lanes, size, b[..i] + [b[i]], b[i + 1..]);
    ContentsJoin(ps, lanes, size, b[..i], [b[i]]);
    ContentsJoin(ps, lanes, size, b[..i], b[i + 1..]);
  }

  // ---------- All payloads, lane by lane and group by group

  /** The payloads of the first n lanes. */
  ghost function LanesBag(ps: seq<Bytes>, lanes: nat, n: nat): multiset<Bytes>
    requires lanes > 0
  {
    if n == 0 then multiset{} else LanesBag(ps, lanes, n - 1) + multiset(LaneHistory(ps, n - 1, lanes))
  }

  lemma {:induction false} LanesGrow(ps: seq<Bytes>, p: Bytes, lanes: nat, n: nat)
    requires lanes > 0
    ensures LanesBag(ps + [p], lanes, n)
         == LanesBag(ps, lanes, n) + (if |ps| % lanes < n then multiset{p} else multiset{})
    decreases n
  {
    hide LaneHistory;
    if n > 0 {
      LanesGrow(ps, p, lanes, n - 1);
      HistoriesGrow(ps, p, lanes);
      LaneGrows(ps, p, n - 1, lanes);
    }
  }

  lemma LaneGrows(ps: seq<Bytes>, p: Bytes, lane: nat, lanes: nat)
    requires lanes > 0
    ensures LaneHistory(ps + [p], lane, lanes) == LaneHistory(ps, lane, lanes) + if |ps| % lanes == lane then [p] else []
  {
    assert (ps + [p])[..|ps|] == ps;
  }

  lemma {:induction false} NoLanes(lanes: nat, n: nat)
    requires lanes > 0
    ensures LanesBag([], lanes, n) == multiset{}
    decreases n
  {
    if n > 0 {
      NoLanes(lanes, n - 1);
    }
  }

  /** Every payload falls to one lane. */
  lemma {:induction false} LanesHoldAll(ps: seq<Bytes>, lanes: nat)
    requires lanes > 0
    ensures LanesBag(ps, lanes, lanes) == multiset(ps)
    decreases ps
  {
    hide *;
    if ps == [] {
      NoLanes(lanes, lanes);
    } else {
      var n := |ps| - 1;
      LanesHoldAll(ps[..n], lanes);
      LanesGrow(ps[..n], ps[n], lanes, lanes);
      assert ps[..n] + [ps[n]] == ps;
    }
  }

  /** The first n groups of a lane. */
  function LaneKeys(lane: nat, n: nat): (keys: seq<Key>)
    ensures |keys| == n && forall g :: 0 <= g < n ==> keys[g] == Key(lane, g)
  {
    seq(n, g requires 0 <= g < n => Key(lane, g))
  }

  lemma {:induction false} LaneContents(ps: seq<Bytes>, lanes: nat, size: nat, lane: nat, n: nat)
    requires lanes > 0 && n * size <= |LaneHistory(ps, lane, lanes)|
    ensures Contents(ps, lanes, size, LaneKeys(lane, n)) == multiset(LaneHistory(ps, lane, lanes)[..n * size])
    decreases n
  {
    hide *;
    var h := LaneHistory(ps, lane, lanes);
    if n == 0 {
      assert LaneKeys(lane, 0) == [] && h[..0 * size] == [];
      NoContents(ps, lanes, size);
    } else {
      OneLess(n, size);
      LaneContents(ps, lanes, size, lane, n - 1);
      LaneStep(ps, lanes, size, lane, n);
      Cut(h, (n - 1) * size, n * size);
    }
  }

  lemma OneLess(n: nat, size: nat)
    requires n > 0
    ensures n * size == (n - 1) * size + size
  {
  }

  lemma LaneStep(ps: seq<Bytes>, lanes: nat, size: nat, lane: nat, n: nat)
    requires lanes > 0 && 0 < n && (n - 1) * size + size <= |LaneHistory(ps, lane, lanes)|
    ensures Contents(ps, lanes, size, LaneKeys(lane, n))
         == Contents(ps, lanes, size, LaneKeys(lane, n - 1))
            + multiset(LaneHistory(ps, lane, lanes)[(n - 1) * size..(n - 1) * size + size])
  {
    hide LaneHistory, Payloads;
    assert LaneKeys(lane, n)[..n - 1] == LaneKeys(lane, n - 1);
    GroupPayloads(ps, lanes, size, Key(lane, n - 1));
  }

  lemma Cut(h: seq<Bytes>, i: nat, j: nat)
    requires i <= j <= |h|
    ensures multiset(h[..j]) == multiset(h[..i]) + multiset(h[i..j])
  {
    assert h[..j] == h[..i] + h[i..j];
  }

  lemma GroupPayloads(ps: seq<Bytes>, lanes: nat, size: nat, key: Key)
    requires lanes > 0 && key.group * size + size <= |LaneHistory(ps, key.lane, lanes)|
    ensures Payloads(ps, lanes, size, key)
         == LaneHistory(ps, key.lane, lanes)[key.group * size..key.group * size + size]
  {
    hide LaneHistory;
  }

  /** The groups of the first n lanes. */
  function AllKeys(ps: seq<Bytes>, lanes: nat, size: nat, n: nat): seq<Key>
    requires lanes > 0 && size > 0
  {
    if n == 0 then [] else AllKeys(ps, lanes, size, n - 1) + LaneKeys(n - 1, |LaneHistory(ps, n - 1, lanes)| / size)
  }

  /** Every lane ends with a completed group. */
  predicate AllWhole(ps: seq<Bytes>, lanes: nat, size: nat)
    requires lanes > 0 && size > 0
  {
    forall lane :: 0 <= lane < lanes ==> |LaneHistory(ps, lane, lanes)| % size == 0
  }

  lemma {:induction false} AllContents(ps: seq<Bytes>, lanes: nat, size: nat, n: nat)
    requires lanes > 0 && size > 0 && AllWhole(ps, lanes, size) && n <= lanes
    ensures Contents(ps, lanes, size, AllKeys(ps, lanes, size, n)) == LanesBag(ps, lanes, n)
    decreases n
  {
    hide *;
    BagSteps(ps, lanes, size, n);
    if n == 0 {
      NoContents(ps, lanes, size);
    } else {
      var h := LaneHistory(ps, n - 1, lanes);
      AllContents(ps, lanes, size, n - 1);
      WholeLane(ps, lanes, size, n - 1);
      LaneContents(ps, lanes, size, n - 1, |h| / size);
      ContentsJoin(ps, lanes, size, AllKeys(ps, lanes, size, n - 1), LaneKeys(n - 1, |h| / size));
    }
  }

  lemma BagSteps(ps: seq<Bytes>, lanes: nat, size: nat, n: nat)
    requires lanes > 0 && size > 0
    ensures n == 0 ==> AllKeys(ps, lanes, size, n) == [] && LanesBag(ps, lanes, n) == multiset{}
    ensures n > 0 ==>
              && LanesBag(ps, lanes, n) == LanesBag(ps, lanes, n - 1) + multiset(LaneHistory(ps, n - 1, lanes))
              && AllKeys(ps, lanes, size, n)
                 == AllKeys(ps, lanes, size, n - 1) + LaneKeys(n - 1, |LaneHistory(ps, n - 1, lanes)| / size)
  {
    hide LaneHistory, LaneKeys;
  }

  lemma WholeLane(ps: seq<Bytes>, lanes: nat, size: nat, lane: nat)
    requires lanes > 0 && size > 0 && AllWhole(ps, lanes, size) && lane < lanes
    ensures var h := LaneHistory(ps, lane, lanes); |h| / size * size == |h| && h[..|h| / size * size] == h
  {
    hide LaneHistory;
    var h := LaneHistory(ps, lane, lanes);
    assert |h| == |h| / size * size + |h| % size;
  }

  lemma NoContents(ps: seq<Bytes>, lanes: nat, size: nat)
    requires lanes > 0
    ensures Contents(ps, lanes, size, []) == multiset{}
  {
  }

  lemma {:induction false} AllKeysAre(ps: seq<Bytes>, lanes: nat, size: nat, n: nat, key: Key)
    requires lanes > 0 && size > 0
    ensures key in AllKeys(ps, lanes, size, n)
       <==> key.lane < n && key.group < |LaneHistory(ps, key.lane, lanes)| / size
    decreases n
  {
    hide *;
    BagSteps(ps, lanes, size, n);
    if n > 0 {
      AllKeysAre(ps, lanes, size, n - 1, key);
      LaneKeysAre(n - 1, |LaneHistory(ps, n - 1, lanes)| / size, key);
    }
  }

  lemma LaneKeysAre(lane: nat, n: nat, key: Key)
    ensures key in LaneKeys(lane, n) <==> key.lane == lane && key.group < n
  {
    if key.lane == lane && key.group < n {
      assert LaneKeys(lane, n)[key.group] == key;
    }
  }

  lemma {:induction false} AllKeysDistinct(ps: seq<Bytes>, lanes: nat, size: nat, n: nat)
    requires lanes > 0 && size > 0
    ensures Distinct(AllKeys(ps, lanes, size, n))
    decreases n
  {
    hide LaneHistory;
    if n > 0 {
      var front := AllKeys(ps, lanes, size, n - 1);
      var last := LaneKeys(n - 1, |LaneHistory(ps, n - 1, lanes)| / size);
      AllKeysDistinct(ps, lanes, size, n - 1);
      hide AllKeys;
      forall i | 0 <= i < |front|
        ensures front[i].lane < n - 1
      {
        AllKeysAre(ps, lanes, size, n - 1, front[i]);
      }
      DistinctJoin(front, last, n - 1);
    }
  }

  lemma DistinctJoin(front: seq<Key>, last: seq<Key>, lane: nat)
    requires Distinct(front) && Distinct(last)
    requires forall i :: 0 <= i < |front| ==> front[i].lane < lane
    requires forall i :: 0 <= i < |last| ==> last[i].lane == lane
    ensures Distinct(front + last)
  {
  }

  // ---------- The round trip

  function KeysOf(log: seq<Closing>): (keys: seq<Key>)
    ensures |keys| == |log| && forall i :: 0 <= i < |log| ==> keys[i] == log[i].key
  {
    seq(|log|, i requires 0 <= i < |log| => log[i].key)
  }

  lemma {:induction false} OutputIsContents(ps: seq<Bytes>, lanes: nat, size: nat, log: seq<Closing>)
    requires 0 < lanes && 0 < size < 256
    requires forall i :: 0 <= i < |log| ==> IsGroup(log[i].payloads, Payloads(ps, lanes, size, log[i].key))
    ensures Output(log) == Contents(ps, lanes, size, KeysOf(log))
    decreases log
  {
    hide Bag, Payloads, IsGroup;
    if log != [] {
      var n := |log| - 1;
      OutputIsContents(ps, lanes, size, log[..n]);
      assert KeysOf(log)[..n] == KeysOf(log[..n]);
      var part := Payloads(ps, lanes, size, log[n].key);
      PartSize(ps, lanes, size, log[n].key);
      BagOfGroup(log[n].payloads, part, 256);
      assert part[..|part|] == part;
    }
  }

  /** At most one of the group's packets is lost. */
  ghost predicate LosesAtMostOne(source: seq<int>, wire: seq<Packet>, key: Key) {
    exists x :: AllButOneSurvive(source, wire, key, x)
  }

  /** A group that a wire packet belongs to is completed when all groups are. */
  lemma OnWireCompleted(ps: seq<Bytes>, lanes: nat, size: nat, i: nat)
    requires Sendable(ps, lanes, size) && i < |Wire(ps, lanes, size)| && 0 < lanes && 0 < size
    requires AllWhole(ps, lanes, size)
    ensures FecLink.Completed(ps, lanes, size, KeyOf(Wire(ps, lanes, size)[i]))
  {
    hide Wire, LaneHistory, Sendable, FecStream.Completes;
    var n := Owner(ps, i, lanes, size);
    PacketGroup(ps, n, i, lanes, size);
    HistoryPrefix(ps, n + 1, |ps|, n % lanes, lanes);
    assert ps[..|ps|] == ps && ps[..n + 1] == ps[..n] + [ps[n]];
    HistoriesGrow(ps[..n], ps[n], lanes);
    FullGroupFits(|LaneHistory(ps[..n], n % lanes, lanes)|, |LaneHistory(ps, n % lanes, lanes)|, size);
  }

  lemma FullGroupFits(k: nat, m: nat, size: nat)
    requires size > 0 && k < m && m % size == 0
    ensures k / size * size + size <= m
  {
    Quotients.QuotientBelow(k, size, m / size);
    Quotients.QuotientBelow(m, size, k / size + 1);
  }

  lemma CompletedExactly(ps: seq<Bytes>, lanes: nat, size: nat, key: Key)
    requires lanes > 0 && size > 0
    ensures key in AllKeys(ps, lanes, size, lanes) <==> FecLink.Completed(ps, lanes, size, key)
  {
    hide LaneHistory, AllKeys;
    AllKeysAre(ps, lanes, size, lanes, key);
    GroupBelow(key.group, |LaneHistory(ps, key.lane, lanes)|, size);
  }

  lemma GroupBelow(g: nat, m: nat, size: nat)
    requires size > 0
    ensures g < m / size <==> g * size + size <= m
  {
    Quotients.QuotientBelow(m, size, g + 1);
    assert (g + 1) * size == g * size + size;
  }

  /** MAIN: when all groups are completed, each loses at most one packet and meets no timeout,
      and payloads are empty or end in a non-zero byte, the payloads handed out are, as a bag,
      exactly those submitted. */
  lemma RoundTrip(ps: seq<Bytes>, lanes: nat, size: nat, events: seq<Event>, source: seq<int>, timeout: real)
    requires Sendable(ps, lanes, size) && InOrder(events, source, Wire(ps, lanes, size)) && RegularClock(events, timeout)
    requires 0 < lanes && 0 < size && AllWhole(ps, lanes, size) && forall p :: p in ps ==> NoTrailingZero(p)
    requires forall key :: FecLink.Completed(ps, lanes, size, key) ==>
               OnTime(events, key, timeout) && LosesAtMostOne(source, Wire(ps, lanes, size), key)
    ensures Output(Run(events, timeout).log) == multiset(ps)
  {
    hide *;
    var log, keys := Run(events, timeout).log, AllKeys(ps, lanes, size, lanes);
    PositiveSizes(ps, lanes, size);
    forall key
      ensures key in KeysOf(log) <==> key in keys
    {
      LogKeys(ps, lanes, size, events, source, timeout, key);
      CompletedExactly(ps, lanes, size, key);
    }
    forall i | 0 <= i < |log|
      ensures IsGroup(log[i].payloads, Payloads(ps, lanes, size, log[i].key))
    {
      LogPayloads(ps, lanes, size, events, source, timeout, i);
    }
    LogDistinct(events, timeout);
    AllKeysDistinct(ps, lanes, size, lanes);
    OutputIsContents(ps, lanes, size, log);
    ContentsOfSame(ps, lanes, size, KeysOf(log), keys);
    AllContents(ps, lanes, size, lanes);
    LanesHoldAll(ps, lanes);
  }

  lemma LogDistinct(events: seq<Event>, timeout: real)
    ensures Distinct(KeysOf(Run(events, timeout).log))
  {
    hide Run, Inv;
    ExactlyOnce(events, timeout);
  }

  /** Exactly the completed groups are finalised. */
  lemma LogKeys(ps: seq<Bytes>, lanes: nat, size: nat, events: seq<Event>, source: seq<int>, timeout: real, key: Key)
    requires Sendable(ps, lanes, size) && InOrder(events, source, Wire(ps, lanes, size)) && RegularClock(events, timeout)
    requires 0 < lanes && 0 < size && AllWhole(ps, lanes, size) && forall p :: p in ps ==> NoTrailingZero(p)
    requires FecLink.Completed(ps, lanes, size, key) ==>
               OnTime(events, key, timeout) && LosesAtMostOne(source, Wire(ps, lanes, size), key)
    ensures key in KeysOf(Run(events, timeout).log) <==> FecLink.Completed(ps, lanes, size, key)
  {
    hide Run, Sendable, InOrder, Wire, RegularClock, OnTime, AllWhole, Payloads, IsGroup, NoTrailingZero, IsArrival,
      FecLink.Completed, AllButOneSurvive;
    var log := Run(events, timeout).log;
    if key in KeysOf(log) {
      var i :| 0 <= i < |log| && log[i].key == key;
      assert Mentions(Run(events, timeout), key);
      MentionedArrived(events, timeout, key);
      var e :| 0 <= e < |events| && IsArrival(events[e], key);
      ArrivedCompleted(ps, lanes, size, events, source, e, key);
    }
    if FecLink.Completed(ps, lanes, size, key) {
      LaneOf(ps, lanes, size, key);
      var x :| AllButOneSurvive(source, Wire(ps, lanes, size), key, x);
      EndToEndExact(ps, lanes, size, events, source, timeout, key, x);
      var i :| 0 <= i < |log| && log[i].key == key;
      assert KeysOf(log)[i] == key;
    }
  }

  lemma LaneOf(ps: seq<Bytes>, lanes: nat, size: nat, key: Key)
    requires lanes > 0 && FecLink.Completed(ps, lanes, size, key)
    ensures key.lane < lanes
  {
  }

  lemma ArrivedCompleted(ps: seq<Bytes>, lanes: nat, size: nat, events: seq<Event>, source: seq<int>, e: nat, key: Key)
    requires Sendable(ps, lanes, size) && InOrder(events, source, Wire(ps, lanes, size))
    requires 0 < lanes && 0 < size && AllWhole(ps, lanes, size) && e < |events| && IsArrival(events[e], key)
    ensures FecLink.Completed(ps, lanes, size, key)
  {
    hide Sendable, InOrder, Wire, AllWhole, IsArrival, FecLink.Completed, Payloads, Datagram, Parse;
    BroughtInOrder(events, source, Wire(ps, lanes, size), e, key);
    BroughtArrival(ps, lanes, size, events[e], source[e]);
    OnWireCompleted(ps, lanes, size, source[e]);
  }

  lemma LogPayloads(ps: seq<Bytes>, lanes: nat, size: nat, events: seq<Event>, source: seq<int>, timeout: real, i: nat)
    requires Sendable(ps, lanes, size) && InOrder(events, source, Wire(ps, lanes, size)) && RegularClock(events, timeout)
    requires 0 < lanes && 0 < size && AllWhole(ps, lanes, size) && forall p :: p in ps ==> NoTrailingZero(p)
    requires forall key :: FecLink.Completed(ps, lanes, size, key) ==>
               OnTime(events, key, timeout) && LosesAtMostOne(source, Wire(ps, lanes, size), key)
    requires i < |Run(events, timeout).log|
    ensures var c := Run(events, timeout).log[i]; IsGroup(c.payloads, Payloads(ps, lanes, size, c.key))
  {
    hide Run, Sendable, InOrder, Wire, RegularClock, OnTime, AllWhole, Payloads, IsGroup, NoTrailingZero, IsArrival,
      FecLink.Completed, AllButOneSurvive;
    var log := Run(events, timeout).log;
    var key := log[i].key;
    assert KeysOf(log)[i] == key;
    LogKeys(ps, lanes, size, events, source, timeout, key);
    LaneOf(ps, lanes, size, key);
    var x :| AllButOneSurvive(source, Wire(ps, lanes, size), key, x);
    EndToEndExact(ps, lanes, size, events, source, timeout, key, x);
  }
}
