/** What every run of the receiver keeps, whatever the channel delivers: groups are closed
    at most once and never reopened, watermarks only rise, and the counters balance. */
module FecSafety {
  import opened FecPacket
  import opened FecDecoder
  import opened Wrappers

  // ---------- The invariant of every reachable state

  ghost predicate ClosedOnce(s: State) {
    forall i, j :: 0 <= i < j < |s.log| ==> s.log[i].key != s.log[j].key
  }

  ghost predicate NeverReopened(s: State) {
    forall i :: 0 <= i < |s.log| ==> s.log[i].key !in s.groups
  }

  ghost predicate BelowWatermark(s: State) {
    forall i :: 0 <= i < |s.log| ==> s.log[i].key.group <= High(s, s.log[i].key.lane)
  }

  /** A lane's watermark is its highest finalised group. */
  ghost predicate WatermarkReached(s: State) {
    forall lane :: High(s, lane) < 0 || exists i :: 0 <= i < |s.log| && s.log[i].key == Key(lane, High(s, lane))
  }

  predicate ByteIndices(c: Closing) {
    forall k :: k in c.payloads ==> k < 256
  }

  ghost predicate Inv(s: State) {
    && ClosedOnce(s) && NeverReopened(s) && BelowWatermark(s) && WatermarkReached(s)
    && ByteKeys(s) && (forall i :: 0 <= i < |s.log| ==> ByteIndices(s.log[i]))
    && (forall lane :: High(s, lane) >= -1)
  }

  /** Later in the same run: the history is extended and no watermark is lower. */
  ghost predicate Later(s: State, s': State) {
    s.log <= s'.log && forall lane :: High(s, lane) <= High(s', lane)
  }

  lemma ReceiveKeeps(s: State, raw: Option<Bytes>, created: real)
    requires Inv(s)
    ensures Inv(Receive(s, raw, created)) && Later(s, Receive(s, raw, created))
    ensures Receive(s, raw, created).log == s.log
  {
    hide Parse;
    if raw.Some? && Parse(raw.value).Accepted? {
      AcceptedInRange(raw.value);
    }
    var s' := Receive(s, raw, created);
    assert s'.log == s.log && s'.high == s.high;
    assert forall lane :: High(s', lane) == High(s, lane);
  }

  lemma CloseKeeps(s: State, key: Key, payloads: map<nat, Bytes>, complete: bool)
    requires Inv(s) && key in s.groups && forall k :: k in payloads ==> k < 256
    ensures Inv(Close(s, key, payloads, complete)) && Later(s, Close(s, key, payloads, complete))
  {
    var s' := Close(s, key, payloads, complete);
    CloseRaises(s, key, payloads, complete);
    CloseMarks(s, key, payloads, complete);
    CloseLogs(s, key, payloads, complete);
    hide Close, High, WatermarkReached;
    assert forall i :: 0 <= i < |s.log| ==> s'.log[i] == s.log[i];
    assert s'.log[|s.log|].key == key && ByteIndices(s'.log[|s.log|]);
  }

  lemma CloseLogs(s: State, key: Key, payloads: map<nat, Bytes>, complete: bool)
    requires key in s.groups
    ensures var s' := Close(s, key, payloads, complete); var g := s.groups[key];
            s'.log == s.log + [Closing(key, g.size, |g.data|, complete, payloads)] && s'.groups == s.groups - {key}
  {
  }

  /** Closing a group raises its lane's watermark to at least the group, and no other. */
  lemma CloseRaises(s: State, key: Key, payloads: map<nat, Bytes>, complete: bool)
    requires key in s.groups
    ensures var s' := Close(s, key, payloads, complete);
            && (forall lane :: High(s, lane) <= High(s', lane) && (lane != key.lane ==> High(s', lane) == High(s, lane)))
            && key.group <= High(s', key.lane)
            && (High(s', key.lane) == High(s, key.lane) || High(s', key.lane) == key.group)
  {
  }

  lemma CloseMarks(s: State, key: Key, payloads: map<nat, Bytes>, complete: bool)
    requires WatermarkReached(s) && key in s.groups
    ensures WatermarkReached(Close(s, key, payloads, complete))
  {
    var s' := Close(s, key, payloads, complete);
    CloseRaises(s, key, payloads, complete);
    CloseLogs(s, key, payloads, complete);
    hide Close, High;
    assert s'.log[|s.log|].key == key;
    forall lane
      ensures High(s', lane) < 0
           || exists i :: 0 <= i < |s'.log| && s'.log[i].key == Key(lane, High(s', lane))
    {
      if High(s', lane) != High(s, lane) {
        assert s'.log[|s.log|].key == Key(lane, High(s', lane));
      } else if High(s, lane) >= 0 {
        var i :| 0 <= i < |s.log| && s.log[i].key == Key(lane, High(s, lane));
        assert s'.log[i] == s.log[i];
      }
    }
  }

  lemma SettleKeeps(s: State, key: Key, now: real, timeout: real)
    requires Inv(s)
    ensures Inv(Settle(s, key, now, timeout).state) && Later(s, Settle(s, key, now, timeout).state)
  {
    hide Later, Close, TryRecover;
    LaterRefl(s);
    if key in s.groups {
      var g := s.groups[key];
      assert InRange(g);
      match TryRecover(g) {
        case IndexError =>
        case Complete(payloads) =>
          RecoveryByteKeys(g);
          CloseKeeps(s, key, payloads, true);
        case Incomplete =>
          if TimedOut(g, now, timeout) {
            CloseKeeps(s, key, g.data, false);
          }
      }
    }
  }

  lemma LaterRefl(s: State)
    ensures Later(s, s)
  {
  }

  lemma LaterTrans(a: State, b: State, c: State)
    requires Later(a, b) && Later(b, c)
    ensures Later(a, c)
  {
    forall lane
      ensures High(a, lane) <= High(c, lane)
    {
      assert High(a, lane) <= High(b, lane);
    }
  }

  lemma {:induction false} SweepKeeps(s: State, order: seq<Key>, now: real, timeout: real)
    requires Inv(s)
    ensures Inv(Sweep(s, order, now, timeout).state) && Later(s, Sweep(s, order, now, timeout).state)
    decreases order
  {
    hide Inv, Later, Settle;
    LaterRefl(s);
    if order != [] {
      var r := Settle(s, order[0], now, timeout);
      SettleKeeps(s, order[0], now, timeout);
      if !r.raised {
        SweepKeeps(r.state, order[1..], now, timeout);
        LaterTrans(s, r.state, Sweep(s, order, now, timeout).state);
      }
    }
  }

  lemma PollKeeps(s: State, e: Event, timeout: real)
    requires Inv(s)
    ensures Inv(Poll(s, e, timeout).state) && Later(s, Poll(s, e, timeout).state)
  {
    hide Inv, Later, Receive, Sweep;
    var received := Receive(s, e.raw, e.created);
    ReceiveKeeps(s, e.raw, e.created);
    SweepKeeps(received, e.order, e.now, timeout);
    LaterTrans(s, received, Poll(s, e, timeout).state);
  }

  /** MAIN: in every run, under any loss, duplication, reordering or corruption, no group
      is finalised twice or open after it was finalised, and every finalised group is at or
      below its lane's watermark. */
  lemma {:induction false} ExactlyOnce(events: seq<Event>, timeout: real)
    ensures var s := Run(events, timeout); Inv(s) && ClosedOnce(s) && NeverReopened(s) && BelowWatermark(s)
    decreases events
  {
    hide Poll;
    if events == [] {
      assert Inv(INITIAL);
    } else {
      ExactlyOnce(events[..|events| - 1], timeout);
      PollKeeps(Run(events[..|events| - 1], timeout), events[|events| - 1], timeout);
    }
  }

  /** MAIN: as a run goes on, watermarks never fall and no closing is ever undone, so a
      group finalised at some point stays finalised exactly once and stays closed. */
  lemma {:induction false} HistoryOnlyGrows(events: seq<Event>, n: nat, timeout: real)
    requires n <= |events|
    ensures Later(Run(events[..n], timeout), Run(events, timeout))
    decreases |events| - n
  {
    hide Poll, Later;
    if n == |events| {
      assert events[..n] == events;
      LaterRefl(Run(events, timeout));
    } else {
      var before := events[..n + 1];
      assert before[..n] == events[..n];
      ExactlyOnce(events[..n], timeout);
      PollKeeps(Run(events[..n], timeout), before[n], timeout);
      HistoryOnlyGrows(events, n + 1, timeout);
      LaterTrans(Run(events[..n], timeout), Run(before, timeout), Run(events, timeout));
    }
  }

  // ---------- The counters

  /** What a finalised group adds to delivered + recovered. */
  function Booked(c: Closing): nat {
    c.got + if c.complete && c.got < c.size then c.size - c.got else 0
  }

  /** The packets a finalised group accounts for in delivered + recovered + lost. */
  function Accounted(c: Closing): int {
    if c.complete then Booked(c) else c.size
  }

  function TotalBooked(log: seq<Closing>): int {
    if log == [] then 0 else TotalBooked(log[..|log| - 1]) + Booked(log[|log| - 1])
  }

  function TotalAccounted(log: seq<Closing>): int {
    if log == [] then 0 else TotalAccounted(log[..|log| - 1]) + Accounted(log[|log| - 1])
  }

  function TotalSize(log: seq<Closing>): int {
    if log == [] then 0 else TotalSize(log[..|log| - 1]) + log[|log| - 1].size
  }

  /** The payloads that the finalised groups give. */
  function TotalOutput(log: seq<Closing>): int {
    if log == [] then 0 else TotalOutput(log[..|log| - 1]) + |log[|log| - 1].payloads|
  }

  ghost predicate Balanced(s: State) {
    && s.stats.delivered + s.stats.recovered == TotalBooked(s.log)
    && s.stats.delivered + s.stats.recovered + s.stats.lost == TotalAccounted(s.log)
  }

  lemma CloseBalances(s: State, key: Key, payloads: map<nat, Bytes>, complete: bool)
    requires Balanced(s) && key in s.groups
    ensures Balanced(Close(s, key, payloads, complete))
  {
    var s' := Close(s, key, payloads, complete);
    assert s'.log[..|s.log|] == s.log;
  }

  lemma SettleBalances(s: State, key: Key, now: real, timeout: real)
    requires Balanced(s)
    ensures Balanced(Settle(s, key, now, timeout).state)
  {
    hide Balanced, Close, TryRecover;
    if key in s.groups {
      var g := s.groups[key];
      match TryRecover(g) {
        case IndexError =>
        case Complete(payloads) => CloseBalances(s, key, payloads, true);
        case Incomplete =>
          if TimedOut(g, now, timeout) {
            CloseBalances(s, key, g.data, false);
          }
      }
    }
  }

  lemma {:induction false} SweepBalances(s: State, order: seq<Key>, now: real, timeout: real)
    requires Balanced(s)
    ensures Balanced(Sweep(s, order, now, timeout).state)
    decreases order
  {
    hide Balanced, Settle;
    if order != [] {
      var r := Settle(s, order[0], now, timeout);
      SettleBalances(s, order[0], now, timeout);
      if !r.raised {
        SweepBalances(r.state, order[1..], now, timeout);
      }
    }
  }

  lemma {:induction false} RunBalances(events: seq<Event>, timeout: real)
    ensures Balanced(Run(events, timeout))
    decreases events
  {
    hide Sweep, Receive, Balanced;
    if events == [] {
      NothingBooked();
    } else {
      var s, e := Run(events[..|events| - 1], timeout), events[|events| - 1];
      RunBalances(events[..|events| - 1], timeout);
      ReceiveBalances(s, e.raw, e.created);
      SweepBalances(Receive(s, e.raw, e.created), e.order, e.now, timeout);
    }
  }

  lemma NothingBooked()
    ensures Balanced(INITIAL)
  {
  }

  lemma ReceiveBalances(s: State, raw: Option<Bytes>, created: real)
    requires Balanced(s)
    ensures Balanced(Receive(s, raw, created))
  {
    hide Parse, TotalBooked, TotalAccounted;
  }

  // ---------- What moves the counters

  /** The groups whose closing matters to the counters: two kinds that are miscounted, and
      those that add to delivered + recovered in a sweep at this time. */
  datatype Kind = Overfull | Astray | Paying(now: real, timeout: real)

  /** The group is about to be closed as complete although it holds more payloads than its
      size; or it is about to be rebuilt from its parity although it holds an index beyond
      its size; or it is about to be closed, complete or late, and gives a payload. */
  ghost predicate OfKind(f: Kind, g: Group) {
    match f
    case Overfull => TryRecover(g).Complete? && |g.data| > g.size
    case Astray => TryRecover(g).Complete? && Missing(g) != {} && exists k :: k in g.data && k >= g.size
    case Paying(now, timeout) =>
      Settles(g, now, timeout) && (g.data != map[] || (TryRecover(g).Complete? && g.size > 0))
  }

  /** A sweep at this time closes the group. */
  predicate Settles(g: Group, now: real, timeout: real) {
    TryRecover(g).Complete? || (TryRecover(g).Incomplete? && TimedOut(g, now, timeout))
  }

  /** The closing booked more than the group's size; or it handed out more than it booked;
      or it booked something. */
  predicate Marks(f: Kind, c: Closing) {
    match f
    case Overfull => Accounted(c) != c.size
    case Astray => |c.payloads| != Booked(c)
    case Paying(_, _) => Booked(c) > 0
  }

  predicate SweptAtTime(f: Kind, now: real, timeout: real) {
    f.Paying? ==> f == Paying(now, timeout)
  }

  /** The sweep of this call closes a group of the kind: one that it reaches before any group
      whose recovery raises. */
  ghost predicate Closes(f: Kind, groups: map<Key, Group>, order: seq<Key>) {
    exists i: nat :: Reaches(groups, order, i) && OfKind(f, groups[order[i]])
  }

  predicate Reaches(groups: map<Key, Group>, order: seq<Key>, i: nat) {
    && i < |order| && order[i] in groups
    && forall j :: 0 <= j < i && order[j] in groups ==> !TryRecover(groups[order[j]]).IndexError?
  }

  /** No call of the run closes a group of the kind, as its groups stand once its datagram is
      in. */
  ghost predicate NeverCloses(f: Kind, events: seq<Event>, timeout: real) {
    forall n :: 0 <= n < |events| ==> !ClosesAt(f, events, n, timeout)
  }

  ghost predicate ClosesAt(f: Kind, events: seq<Event>, n: nat, timeout: real)
    requires n < |events|
  {
    Closes(f, Met(events, n, timeout).groups, events[n].order)
  }

  /** What the sweep of call n meets. */
  function Met(events: seq<Event>, n: nat, timeout: real): State
    requires n < |events|
  {
    Receive(Run(events[..n], timeout), events[n].raw, events[n].created)
  }

  lemma PresentAndMissing(g: Group)
    requires Tidy(g)
    ensures |g.data| + |Missing(g)| == g.size
  {
    var all := Upto(g.size);
    assert g.data.Keys + Missing(g) == all && g.data.Keys !! Missing(g);
    assert |g.data.Keys + Missing(g)| == |g.data.Keys| + |Missing(g)|;
  }

  /** Every payload index of the group is inside the group. */
  predicate Tidy(g: Group) {
    forall k :: k in g.data ==> k < g.size
  }

  function Upto(n: nat): (r: set<nat>)
    ensures |r| == n && forall i: nat :: i in r <==> i < n
  {
    if n == 0 then {} else Upto(n - 1) + {n - 1}
  }

  /** How many of a group's payloads have an index inside and beyond its size. */
  lemma Shares(g: Group)
    ensures var beyond := set k | k in g.data && k >= g.size;
            |g.data| + |Missing(g)| == g.size + |beyond| && (beyond == {} <==> Tidy(g))
  {
    var beyond := set k | k in g.data && k >= g.size;
    assert g.data.Keys + Missing(g) == Upto(g.size) + beyond;
    assert g.data.Keys !! Missing(g) && Upto(g.size) !! beyond;
    assert |g.data.Keys + Missing(g)| == |g.data.Keys| + |Missing(g)|;
    assert |Upto(g.size) + beyond| == g.size + |beyond|;
  }

  /** A recovery adds one payload exactly when one was missing. */
  lemma RecoveryAdds(g: Group)
    requires TryRecover(g).Complete?
    ensures |TryRecover(g).payloads| == |g.data| + |Missing(g)| && |Missing(g)| <= 1
  {
    hide FecParity.StripZeros, FecParity.Rebuilt, FitsParity;
    if Missing(g) != {} {
      var m :| m in Missing(g);
      OnlyMissing(g, m);
      var full := TryRecover(g).payloads;
      assert full.Keys == g.data.Keys + {m};
    }
  }

  /** Closing a complete group marks it exactly when it is of the kind. */
  lemma CompleteMarks(f: Kind, g: Group, key: Key)
    requires TryRecover(g).Complete?
    ensures var c := Closing(key, g.size, |g.data|, true, TryRecover(g).payloads);
            (Marks(f, c) <==> OfKind(f, g)) && Booked(c) <= |c.payloads|
  {
    RecoveryAdds(g);
    Shares(g);
    hide TryRecover, Missing;
    var beyond := set k | k in g.data && k >= g.size;
    assert |beyond| == 0 <==> beyond == {};
    assert |Missing(g)| == 0 <==> Missing(g) == {};
  }

  lemma LateMarks(f: Kind, g: Group, key: Key, now: real, timeout: real)
    requires TryRecover(g).Incomplete? && TimedOut(g, now, timeout) && SweptAtTime(f, now, timeout)
    ensures var c := Closing(key, g.size, |g.data|, false, g.data);
            (Marks(f, c) <==> OfKind(f, g)) && Booked(c) <= |c.payloads|
  {
    hide TryRecover;
  }

  /** None of the closings from number `from` on is of the kind. */
  ghost predicate Unmarked(f: Kind, from: nat, log: seq<Closing>) {
    forall i :: from <= i < |log| ==> !Marks(f, log[i])
  }

  /** No closing booked more than it handed out. */
  predicate Fair(log: seq<Closing>) {
    forall i :: 0 <= i < |log| ==> Booked(log[i]) <= |log[i].payloads|
  }

  lemma MarkStep(f: Kind, from: nat, log: seq<Closing>, c: Closing)
    requires from <= |log|
    ensures Unmarked(f, from, log + [c]) <==> Unmarked(f, from, log) && !Marks(f, c)
    ensures Fair(log + [c]) <==> Fair(log) && Booked(c) <= |c.payloads|
  {
    hide Marks, Booked;
    assert (log + [c])[|log|] == c;
    assert forall i :: 0 <= i < |log| ==> (log + [c])[i] == log[i];
  }

  /** One group's treatment adds a marked closing exactly when the group is of the kind. */
  lemma SettleMarks(f: Kind, from: nat, s: State, key: Key, now: real, timeout: real)
    requires from <= |s.log| && SweptAtTime(f, now, timeout)
    ensures Unmarked(f, from, Settle(s, key, now, timeout).state.log)
       <==> Unmarked(f, from, s.log) && !(key in s.groups && OfKind(f, s.groups[key]))
    ensures Fair(s.log) ==> Fair(Settle(s, key, now, timeout).state.log)
  {
    hide Fair, Booked, Unmarked, TryRecover, Marks, OfKind, TimedOut;
    if key in s.groups {
      var g := s.groups[key];
      KindSettles(f, g, now, timeout);
      match TryRecover(g) {
        case IndexError =>
        case Complete(payloads) =>
          CompleteMarks(f, g, key);
          MarkStep(f, from, s.log, Closing(key, g.size, |g.data|, true, payloads));
        case Incomplete =>
          if TimedOut(g, now, timeout) {
            LateMarks(f, g, key, now, timeout);
            MarkStep(f, from, s.log, Closing(key, g.size, |g.data|, false, g.data));
          }
      }
    }
  }

  lemma KindSettles(f: Kind, g: Group, now: real, timeout: real)
    requires SweptAtTime(f, now, timeout)
    ensures OfKind(f, g) ==> Settles(g, now, timeout)
  {
    hide TryRecover;
  }

  lemma {:induction false} SweepMarks(f: Kind, from: nat, s: State, order: seq<Key>, now: real, timeout: real)
    requires from <= |s.log| && SweptAtTime(f, now, timeout)
    ensures Unmarked(f, from, Sweep(s, order, now, timeout).state.log)
       <==> Unmarked(f, from, s.log) && !Closes(f, s.groups, order)
    ensures Fair(s.log) ==> Fair(Sweep(s, order, now, timeout).state.log)
    decreases order
  {
    hide Fair, Unmarked, Settle, OfKind, Closes;
    if order == [] {
      NoneReached(f, s.groups);
    } else {
      var r := Settle(s, order[0], now, timeout);
      SettleMarks(f, from, s, order[0], now, timeout);
      SettleExtends(s, order[0], now, timeout);
      ReachesNext(f, s, order, now, timeout);
      if !r.raised {
        SweepMarks(f, from, r.state, order[1..], now, timeout);
      }
    }
  }

  lemma SettleExtends(s: State, key: Key, now: real, timeout: real)
    ensures |s.log| <= |Settle(s, key, now, timeout).state.log|
  {
    hide TryRecover;
  }

  lemma NoneReached(f: Kind, groups: map<Key, Group>)
    ensures !Closes(f, groups, [])
  {
  }

  /** The groups of a kind that a sweep reaches: its first, or those reached after it. */
  lemma ReachesNext(f: Kind, s: State, order: seq<Key>, now: real, timeout: real)
    requires order != [] && SweptAtTime(f, now, timeout)
    ensures var r := Settle(s, order[0], now, timeout);
            var first := order[0] in s.groups && OfKind(f, s.groups[order[0]]);
            Closes(f, s.groups, order)
            <==> first || (!r.raised && Closes(f, r.state.groups, order[1..]))
  {
    var r := Settle(s, order[0], now, timeout);
    SettleGroups(s, order[0], now, timeout);
    if order[0] in s.groups {
      KindSettles(f, s.groups[order[0]], now, timeout);
    }
    hide Settle, TryRecover, OfKind, TimedOut;
    if r.raised {
      StuckAtFirst(f, s.groups, order);
    } else {
      KindLater(f, s.groups, r.state.groups, order);
    }
  }

  lemma StuckAtFirst(f: Kind, groups: map<Key, Group>, order: seq<Key>)
    requires order != [] && order[0] in groups && TryRecover(groups[order[0]]).IndexError?
    requires !OfKind(f, groups[order[0]])
    ensures !Closes(f, groups, order)
  {
    hide TryRecover, OfKind;
  }

  lemma KindLater(f: Kind, groups: map<Key, Group>, left: map<Key, Group>, order: seq<Key>)
    requires order != [] && (left == groups || left == groups - {order[0]})
    requires order[0] in groups ==> !TryRecover(groups[order[0]]).IndexError?
    requires order[0] in left ==> !OfKind(f, left[order[0]])
    ensures Closes(f, groups, order)
       <==> (order[0] in groups && OfKind(f, groups[order[0]])) || Closes(f, left, order[1..])
  {
    hide TryRecover, OfKind;
    var rest := order[1..];
    if order[0] in groups && OfKind(f, groups[order[0]]) {
      assert Reaches(groups, order, 0);
    } else if Closes(f, groups, order) {
      var i: nat :| Reaches(groups, order, i) && OfKind(f, groups[order[i]]);
      assert rest[i - 1] == order[i];
      ReachesBoth(groups, left, order, i);
    }
    if Closes(f, left, rest) {
      var i: nat :| Reaches(left, rest, i) && OfKind(f, left[rest[i]]);
      assert rest[i] == order[i + 1];
      ReachesBoth(groups, left, order, i + 1);
      assert Reaches(groups, order, i + 1);
    }
  }

  /** A group treated without raising stays, or goes because its recovery did not raise. */
  lemma SettleGroups(s: State, key: Key, now: real, timeout: real)
    ensures var r := Settle(s, key, now, timeout);
            if r.raised then key in s.groups && TryRecover(s.groups[key]).IndexError?
            else
              && (r.state.groups == s.groups || r.state.groups == s.groups - {key})
              && (key in s.groups ==> !TryRecover(s.groups[key]).IndexError?)
              && (key in r.state.groups ==> !Settles(s.groups[key], now, timeout))
  {
    hide TryRecover;
  }

  lemma ReachesBoth(groups: map<Key, Group>, left: map<Key, Group>, order: seq<Key>, i: nat)
    requires 0 < i < |order| && (left == groups || left == groups - {order[0]})
    requires order[0] in groups ==> !TryRecover(groups[order[0]]).IndexError?
    requires left == groups || order[i] != order[0] || order[0] !in groups
    ensures Reaches(groups, order, i) <==> Reaches(left, order[1..], i - 1)
  {
    hide TryRecover;
    var rest := order[1..];
    assert forall j :: 0 <= j < |rest| ==> rest[j] == order[j + 1];
    if Reaches(groups, order, i) {
      assert forall j :: 0 <= j < i - 1 && rest[j] in left ==> order[j + 1] in groups;
    }
    if Reaches(left, rest, i - 1) {
      forall j | 0 <= j < i && order[j] in groups
        ensures !TryRecover(groups[order[j]]).IndexError?
      {
        if j > 0 && order[j] in left {
          assert rest[j - 1] == order[j];
        }
      }
    }
  }

  lemma {:induction false} RunMarks(f: Kind, events: seq<Event>, timeout: real)
    requires !f.Paying?
    ensures Unmarked(f, 0, Run(events, timeout).log) <==> NeverCloses(f, events, timeout)
    ensures Fair(Run(events, timeout).log)
    decreases events
  {
    hide Fair, Unmarked, ClosesAt, Receive, Sweep;
    if events == [] {
      NothingMarked(f);
    } else {
      var n := |events| - 1;
      RunMarks(f, events[..n], timeout);
      assert events[..n + 1] == events;
      CallMarks(f, 0, events, n, timeout);
      forall i | 0 <= i < n
        ensures ClosesAt(f, events[..n], i, timeout) <==> ClosesAt(f, events, i, timeout)
      {
        ClosesEarlier(f, events, n, i, timeout);
      }
    }
  }

  lemma NothingMarked(f: Kind)
    ensures Unmarked(f, 0, INITIAL.log) && Fair(INITIAL.log)
  {
  }

  lemma ClosesEarlier(f: Kind, events: seq<Event>, n: nat, i: nat, timeout: real)
    requires i < n <= |events|
    ensures ClosesAt(f, events[..n], i, timeout) <==> ClosesAt(f, events, i, timeout)
  {
    hide Closes, Run, Receive;
    assert events[..n][..i] == events[..i];
  }

  /** The closings that call n marks. */
  lemma CallMarks(f: Kind, from: nat, events: seq<Event>, n: nat, timeout: real)
    requires n < |events| && SweptAtTime(f, events[n].now, timeout)
    requires from <= |Run(events[..n], timeout).log|
    ensures Unmarked(f, from, Run(events[..n + 1], timeout).log)
            <==> Unmarked(f, from, Run(events[..n], timeout).log) && !ClosesAt(f, events, n, timeout)
    ensures Fair(Run(events[..n], timeout).log) ==> Fair(Run(events[..n + 1], timeout).log)
  {
    hide Fair, Unmarked, Closes, Sweep, Parse, SweptAtTime;
    assert events[..n + 1][..n] == events[..n];
    var s, e := Run(events[..n], timeout), events[n];
    var received := Receive(s, e.raw, e.created);
    assert received.log == s.log;
    SweepMarks(f, from, received, e.order, e.now, timeout);
  }

  // ---------- Conservation

  lemma {:induction false} AccountedIsSize(log: seq<Closing>)
    ensures TotalSize(log) <= TotalAccounted(log)
    ensures TotalAccounted(log) == TotalSize(log) <==> Unmarked(Overfull, 0, log)
  {
    if log != [] {
      var n := |log| - 1;
      AccountedIsSize(log[..n]);
      MarkStep(Overfull, 0, log[..n], log[n]);
      assert log == log[..n] + [log[n]];
      hide Unmarked;
    }
  }

  lemma {:induction false} OutputIsBooked(log: seq<Closing>)
    requires Fair(log)
    ensures TotalBooked(log) <= TotalOutput(log)
    ensures TotalOutput(log) == TotalBooked(log) <==> Unmarked(Astray, 0, log)
  {
    if log != [] {
      var n := |log| - 1;
      assert forall i :: 0 <= i < n ==> log[..n][i] == log[i];
      OutputIsBooked(log[..n]);
      MarkStep(Astray, 0, log[..n], log[n]);
      assert log == log[..n] + [log[n]];
      hide Unmarked;
    }
  }

  /** MAIN: delivered + recovered + lost equals the sizes of the finalised groups if and only
      if no call closes as complete a group that holds more payloads than its size. */
  lemma Conservation(events: seq<Event>, timeout: real)
    ensures var s := Run(events, timeout);
            s.stats.delivered + s.stats.recovered + s.stats.lost == TotalSize(s.log)
            <==> NeverCloses(Overfull, events, timeout)
  {
    hide Run, TotalAccounted, TotalSize, TotalBooked, NeverCloses;
    RunBalances(events, timeout);
    AccountedIsSize(Run(events, timeout).log);
    RunMarks(Overfull, events, timeout);
  }

  // ---------- A condition on the datagrams alone

  /** If both events bring accepted packets of one group and the later one is DATA, its
      index lies inside the size that the earlier one states. */
  predicate IndexFits(first: Event, later: Event) {
    first.raw.Some? && later.raw.Some? ==>
      var a, b := Parse(first.raw.value), Parse(later.raw.value);
      a.Accepted? && b.Accepted? && a.lane == b.lane && a.laneGroup == b.laneGroup && b.ptype == TYPE_DATA
      ==> b.groupSeq < a.groupSize
  }

  predicate WellIndexed(events: seq<Event>) {
    forall i, j :: 0 <= i <= j < |events| ==> IndexFits(events[i], events[j])
  }

  /** The group is tidy and has the size some packet of it stated. */
  ghost predicate Stated(events: seq<Event>, key: Key, g: Group) {
    Tidy(g) && exists i :: 0 <= i < |events| && States(events[i], key, g.size)
  }

  predicate States(e: Event, key: Key, size: nat) {
    IsArrival(e, key) && Parse(e.raw.value).groupSize == size
  }

  ghost predicate AllStated(events: seq<Event>, s: State) {
    forall key :: key in s.groups ==> Stated(events, key, s.groups[key])
  }

  /** Reception keeps every group tidy. */
  lemma ReceiveStates(events: seq<Event>, s: State)
    requires events != [] && WellIndexed(events) && AllStated(events[..|events| - 1], s)
    ensures var e := events[|events| - 1]; AllStated(events, Receive(s, e.raw, e.created))
  {
    var n := |events| - 1;
    var e := events[n];
    var s' := Receive(s, e.raw, e.created);
    forall key | key in s'.groups
      ensures Stated(events, key, s'.groups[key])
    {
      if key in s.groups {
        assert Stated(events[..n], key, s.groups[key]);
        StatedLater(events, n, key, s.groups[key]);
      }
      if IsArrival(e, key) {
        ArrivalStates(events, s, key);
      } else {
        OtherUntouched(s, e, key);
      }
    }
  }

  lemma StatedLater(events: seq<Event>, n: nat, key: Key, g: Group)
    requires n <= |events| && Stated(events[..n], key, g)
    ensures Stated(events, key, g)
  {
    hide States, Tidy;
    var i :| 0 <= i < n && States(events[..n][i], key, g.size);
    assert States(events[i], key, g.size);
  }

  lemma OtherUntouched(s: State, e: Event, key: Key)
    requires !IsArrival(e, key) && key in Receive(s, e.raw, e.created).groups
    ensures key in s.groups && Receive(s, e.raw, e.created).groups[key] == s.groups[key]
  {
    hide Parse;
  }

  lemma ArrivalStates(events: seq<Event>, s: State, key: Key)
    requires events != [] && WellIndexed(events) && IsArrival(events[|events| - 1], key)
    requires key in s.groups ==> Stated(events, key, s.groups[key])
    requires var e := events[|events| - 1]; key in Receive(s, e.raw, e.created).groups
    ensures var e := events[|events| - 1]; Stated(events, key, Receive(s, e.raw, e.created).groups[key])
  {
    hide Parse;
    var n := |events| - 1;
    var e := events[n];
    var a := Parse(e.raw.value);
    assert IndexFits(e, e);
    assert States(e, key, a.groupSize);
    if key in s.groups {
      var i :| 0 <= i < |events| && States(events[i], key, s.groups[key].size);
      assert IndexFits(events[i], e);
    }
  }

  lemma {:induction false} SweepStates(events: seq<Event>, s: State, order: seq<Key>, now: real, timeout: real)
    requires AllStated(events, s)
    ensures AllStated(events, Sweep(s, order, now, timeout).state)
    decreases order
  {
    hide Settle, Stated, TryRecover;
    if order != [] {
      var r := Settle(s, order[0], now, timeout);
      SettleGroups(s, order[0], now, timeout);
      SettleRaises(s, order[0], now, timeout);
      if !r.raised {
        SweepStates(events, r.state, order[1..], now, timeout);
      }
    }
  }

  lemma SettleRaises(s: State, key: Key, now: real, timeout: real)
    ensures Settle(s, key, now, timeout).raised ==> Settle(s, key, now, timeout).state == s
  {
    hide TryRecover;
  }

  lemma {:induction false} RunStates(events: seq<Event>, timeout: real)
    requires WellIndexed(events)
    ensures AllStated(events, Run(events, timeout))
    decreases events
  {
    hide AllStated, Sweep, Receive, IndexFits;
    if events == [] {
      NothingStated();
    } else {
      var n := |events| - 1;
      var s, e := Run(events[..n], timeout), events[n];
      RunStates(events[..n], timeout);
      ReceiveStates(events, s);
      SweepStates(events, Receive(s, e.raw, e.created), e.order, e.now, timeout);
    }
  }

  lemma NothingStated()
    ensures AllStated([], INITIAL)
  {
  }

  lemma TidyIsSound(f: Kind, g: Group)
    requires Tidy(g) && !f.Paying?
    ensures !OfKind(f, g)
  {
    PresentAndMissing(g);
  }

  /** When every DATA index lies inside the sizes stated by the packets of its group up to
      then, no group is ever miscounted. */
  lemma WellIndexedIsSound(f: Kind, events: seq<Event>, timeout: real)
    requires WellIndexed(events) && !f.Paying?
    ensures NeverCloses(f, events, timeout)
  {
    hide ClosesAt, WellIndexed;
    forall n | 0 <= n < |events|
      ensures !ClosesAt(f, events, n, timeout)
    {
      SoundCall(f, events, n, timeout);
    }
  }

  lemma SoundCall(f: Kind, events: seq<Event>, n: nat, timeout: real)
    requires WellIndexed(events) && !f.Paying? && n < |events|
    ensures !ClosesAt(f, events, n, timeout)
  {
    hide *;
    var upto := events[..n + 1];
    assert |upto| == n + 1 && upto[..n] == events[..n] && upto[n] == events[n];
    WellIndexedPrefix(events, n);
    WellIndexedPrefix(events, n + 1);
    RunStates(events[..n], timeout);
    ReceiveStates(upto, Run(events[..n], timeout));
    MetIs(events, n, timeout);
    SoundGroups(f, upto, Met(events, n, timeout), events[n].order);
    ClosesAtIs(f, events, n, timeout);
  }

  lemma MetIs(events: seq<Event>, n: nat, timeout: real)
    requires n < |events|
    ensures Met(events, n, timeout) == Receive(Run(events[..n], timeout), events[n].raw, events[n].created)
  {
  }

  lemma ClosesAtIs(f: Kind, events: seq<Event>, n: nat, timeout: real)
    requires n < |events|
    ensures ClosesAt(f, events, n, timeout) <==> Closes(f, Met(events, n, timeout).groups, events[n].order)
  {
  }

  lemma WellIndexedPrefix(events: seq<Event>, n: nat)
    requires WellIndexed(events) && n <= |events|
    ensures WellIndexed(events[..n])
  {
    hide IndexFits;
  }

  lemma SoundGroups(f: Kind, events: seq<Event>, s: State, order: seq<Key>)
    requires AllStated(events, s) && !f.Paying?
    ensures !Closes(f, s.groups, order)
  {
    hide OfKind, TryRecover;
    forall key | key in s.groups
      ensures !OfKind(f, s.groups[key])
    {
      assert Stated(events, key, s.groups[key]);
      TidyIsSound(f, s.groups[key]);
    }
  }

  // ---------- How much is handed out

  predicate KeysBelow(m: map<nat, Bytes>, n: nat) {
    forall k :: k in m ==> k < n
  }

  lemma {:induction false} BagSize(m: map<nat, Bytes>, n: nat)
    requires KeysBelow(m, n)
    ensures |Bag(m, n)| == |m|
    decreases n
  {
    hide *;
    if n == 0 {
      BagOfNone(m);
    } else {
      FewerKeys(m, n);
      BagWithout(m, n);
      if n - 1 in m {
        BagSize(m - {n - 1}, n - 1);
        BagWith(m, n);
      } else {
        BagSize(m, n - 1);
      }
    }
  }

  lemma BagOfNone(m: map<nat, Bytes>)
    requires KeysBelow(m, 0)
    ensures |Bag(m, 0)| == |m|
  {
    FewerKeys(m, 0);
  }

  /** How one key counts. */
  lemma BagWithout(m: map<nat, Bytes>, n: nat)
    requires n > 0
    ensures n - 1 in m ==> |m| == |m - {n - 1}| + 1
    ensures n - 1 !in m ==> |Bag(m, n)| == |Bag(m, n - 1)|
  {
    hide *;
    if n - 1 in m {
      TakeOut(m, n - 1);
    } else {
      BagBelow(m, n);
    }
  }

  lemma BagWith(m: map<nat, Bytes>, n: nat)
    requires n > 0 && n - 1 in m
    ensures |Bag(m, n)| == |Bag(m - {n - 1}, n - 1)| + 1
  {
    hide *;
    var rest := m - {n - 1};
    TakeOut(m, n - 1);
    BagAdd(rest, n - 1, m[n - 1], n);
    BagBelow(rest, n);
    assert Bag(m, n) == Bag(rest, n - 1) + multiset{m[n - 1]};
  }

  lemma FewerKeys(m: map<nat, Bytes>, n: nat)
    requires KeysBelow(m, n)
    ensures if n == 0 then m == map[] else KeysBelow(m - {n - 1}, n - 1) && (n - 1 !in m ==> KeysBelow(m, n - 1))
  {
    assert n == 0 ==> m.Keys == {};
  }

  lemma TakeOut(m: map<nat, Bytes>, k: nat)
    requires k in m
    ensures k !in m - {k} && m == (m - {k})[k := m[k]] && |m| == |m - {k}| + 1
  {
    assert m.Keys == (m - {k}).Keys + {k};
    assert |m.Keys| == |(m - {k}).Keys| + 1;
  }

  lemma BagBelow(m: map<nat, Bytes>, n: nat)
    requires n > 0 && n - 1 !in m
    ensures Bag(m, n) == Bag(m, n - 1)
  {
  }

  /** The bag of the finalised groups' payloads is as large as the closings say. */
  lemma {:induction false} OutputSize(closings: seq<Closing>)
    requires forall i :: 0 <= i < |closings| ==> ByteIndices(closings[i])
    ensures |Output(closings)| == TotalOutput(closings)
    decreases closings
  {
    hide Bag;
    if closings != [] {
      var n := |closings| - 1;
      assert forall i :: 0 <= i < n ==> closings[..n][i] == closings[i];
      OutputSize(closings[..n]);
      assert ByteIndices(closings[n]);
      BagSize(closings[n].payloads, 256);
    }
  }

  // ---------- Every datagram is counted once

  predicate FullLength(e: Event) {
    e.raw.Some? && !Parse(e.raw.value).TooShort?
  }

  /** The datagram, if accepted, is DATA or PARITY. */
  predicate KnownType(e: Event) {
    e.raw.Some? && Parse(e.raw.value).Accepted? ==> Parse(e.raw.value).ptype in {TYPE_DATA, TYPE_PARITY}
  }

  function FullLengthCount(events: seq<Event>): nat {
    if events == [] then 0
    else FullLengthCount(events[..|events| - 1]) + (if FullLength(events[|events| - 1]) then 1 else 0)
  }

  function Counted(s: State): nat {
    s.stats.dataPkts + s.stats.parityPkts + s.stats.crcFail + s.stats.staleDropped
  }

  lemma {:induction false} SweepCounts(s: State, order: seq<Key>, now: real, timeout: real)
    ensures Counted(Sweep(s, order, now, timeout).state) == Counted(s)
    decreases order
  {
    hide TryRecover;
    if order != [] {
      var r := Settle(s, order[0], now, timeout);
      assert Counted(r.state) == Counted(s);
      if !r.raised {
        SweepCounts(r.state, order[1..], now, timeout);
      }
    }
  }

  /** MAIN: every full-length datagram of the two known types is counted in exactly one of
      data_pkts, parity_pkts, crc_fail and stale_dropped. */
  lemma {:induction false} EveryDatagramCounted(events: seq<Event>, timeout: real)
    requires forall i :: 0 <= i < |events| ==> KnownType(events[i])
    ensures Counted(Run(events, timeout)) == FullLengthCount(events)
    decreases events
  {
    hide Sweep, Parse;
    if events != [] {
      var n := |events| - 1;
      var s, e := Run(events[..n], timeout), events[n];
      EveryDatagramCounted(events[..n], timeout);
      assert KnownType(e);
      SweepCounts(Receive(s, e.raw, e.created), e.order, e.now, timeout);
    }
  }
}
