/** What the receiver's calls return, against what its counters say; when a call raises, and
    how long a group may stay open (gcs/tools/fec_core.py:16-21, 39-53, 118-137). */
module FecReturns {
  import opened FecPacket
  import opened FecDecoder
  import opened FecSafety
  import opened FecHistory

  // ---------- When a call raises

  /** One payload is missing, the parity is there, and a held payload is longer than it. */
  predicate Jams(g: Group) {
    |Missing(g)| == 1 && g.parity.Some? && exists k :: k in g.data && |g.data[k]| > |g.parity.value|
  }

  lemma JamsExactly(g: Group)
    ensures TryRecover(g).IndexError? <==> Jams(g)
  {
    hide FecParity.StripZeros, FecParity.Rebuilt;
  }

  ghost predicate Jammed(groups: map<Key, Group>, order: seq<Key>) {
    exists key :: key in order && key in groups && Jams(groups[key])
  }

  lemma {:induction false} SweepRaises(s: State, order: seq<Key>, now: real, timeout: real)
    ensures Sweep(s, order, now, timeout).raised <==> Jammed(s.groups, order)
    decreases order
  {
    hide TryRecover, Settle, Jams;
    if order != [] {
      var first, rest := order[0], order[1..];
      var r := Settle(s, first, now, timeout);
      if first in s.groups {
        JamsExactly(s.groups[first]);
      }
      SettleGroups(s, first, now, timeout);
      assert forall key :: key in order <==> key == first || key in rest;
      if !r.raised {
        SweepRaises(r.state, rest, now, timeout);
      }
    }
  }

  /** A call raises exactly when some open group jams, whatever the order of the sweep. */
  lemma RaisesExactly(events: seq<Event>, n: nat, timeout: real)
    requires n < |events| && VisitsAll(events, n, timeout)
    ensures var met := Met(events, n, timeout).groups;
            RaisesAt(events, n, timeout) <==> exists key :: key in met && Jams(met[key])
  {
    hide Run, Receive, Sweep, Jams;
    SweepRaises(Met(events, n, timeout), events[n].order, events[n].now, timeout);
  }

  // ---------- One call

  /** The call raises after it booked a payload. */
  ghost predicate LosesAt(events: seq<Event>, n: nat, timeout: real)
    requires n < |events|
  {
    RaisesAt(events, n, timeout) && ClosesAt(Paying(events[n].now, timeout), events, n, timeout)
  }

  /** delivered + recovered after the first n calls. */
  function BookedBy(events: seq<Event>, n: nat, timeout: real): nat
    requires n <= |events|
  {
    var s := Run(events[..n], timeout);
    s.stats.delivered + s.stats.recovered
  }

  ghost function ReturnedAt(events: seq<Event>, n: nat, timeout: real): multiset<Bytes>
    requires n < |events|
  {
    Returned(Run(events[..n], timeout), events[n], timeout)
  }

  lemma {:induction false} TotalsJoin(log: seq<Closing>, more: seq<Closing>)
    requires log <= more
    ensures TotalBooked(more) == TotalBooked(log) + TotalBooked(more[|log|..])
    decreases |more|
  {
    if log == more {
      assert more[|log|..] == [];
    } else {
      var front, tail := more[..|more| - 1], more[|log|..];
      TotalsJoin(log, front);
      assert tail[..|tail| - 1] == front[|log|..];
    }
  }

  lemma {:induction false} NothingBookedExactly(f: Kind, log: seq<Closing>)
    requires f.Paying?
    ensures TotalBooked(log) >= 0
    ensures TotalBooked(log) == 0 <==> Unmarked(f, 0, log)
    decreases log
  {
    if log != [] {
      var n := |log| - 1;
      NothingBookedExactly(f, log[..n]);
      MarkStep(f, 0, log[..n], log[n]);
      assert log == log[..n] + [log[n]];
      hide Unmarked;
    }
  }

  lemma UnmarkedTail(f: Kind, from: nat, log: seq<Closing>)
    requires from <= |log|
    ensures Unmarked(f, 0, log[from..]) <==> Unmarked(f, from, log)
  {
    hide Marks;
    forall i | from <= i < |log|
      ensures log[i] == log[from..][i - from]
    {
    }
  }

  /** The closings of call n. */
  ghost function MadeAt(events: seq<Event>, n: nat, timeout: real): (made: seq<Closing>)
    requires n < |events|
    ensures Run(events[..n], timeout).log + made == Run(events[..n + 1], timeout).log
  {
    assert events[..n + 1][..n] == events[..n];
    PollExtends(Run(events[..n], timeout), events[n], timeout);
    Run(events[..n + 1], timeout).log[|Run(events[..n], timeout).log|..]
  }

  lemma ReturnedMade(events: seq<Event>, n: nat, timeout: real)
    requires n < |events|
    ensures ReturnedAt(events, n, timeout)
         == if RaisesAt(events, n, timeout) then multiset{} else Output(MadeAt(events, n, timeout))
  {
    hide Poll, Output;
    assert events[..n + 1][..n] == events[..n];
  }

  lemma BookedMade(events: seq<Event>, n: nat, timeout: real)
    requires n < |events|
    ensures BookedBy(events, n + 1, timeout) == BookedBy(events, n, timeout) + TotalBooked(MadeAt(events, n, timeout))
  {
    hide Run, TotalBooked, TotalAccounted;
    RunBalances(events[..n], timeout);
    RunBalances(events[..n + 1], timeout);
    var made := MadeAt(events, n, timeout);
    TotalsJoin(Run(events[..n], timeout).log, Run(events[..n + 1], timeout).log);
    assert Run(events[..n + 1], timeout).log[|Run(events[..n], timeout).log|..] == made;
  }

  /** What the closings of a call hold against what it books for them. */
  lemma MadeCounts(events: seq<Event>, n: nat, timeout: real)
    requires n < |events|
    ensures var made := MadeAt(events, n, timeout);
            && |Output(made)| >= TotalBooked(made) >= 0
            && (|Output(made)| == TotalBooked(made) <==> !ClosesAt(Astray, events, n, timeout))
            && (TotalBooked(made) == 0 <==> !ClosesAt(Paying(events[n].now, timeout), events, n, timeout))
  {
    hide *;
    var s, s' := Run(events[..n], timeout), Run(events[..n + 1], timeout);
    var made := MadeAt(events, n, timeout);
    assert s'.log[|s.log|..] == made;
    OutputMade(events, n, timeout);
    OutputIsBooked(made);
    MadeMarks(Astray, events, n, timeout);
    MadeMarks(Paying(events[n].now, timeout), events, n, timeout);
    NothingBookedExactly(Paying(events[n].now, timeout), made);
  }

  lemma MadeMarks(f: Kind, events: seq<Event>, n: nat, timeout: real)
    requires n < |events| && (f == Astray || f == Paying(events[n].now, timeout))
    ensures Unmarked(f, 0, MadeAt(events, n, timeout)) <==> !ClosesAt(f, events, n, timeout)
  {
    hide Run, ClosesAt, Marks;
    var s, s' := Run(events[..n], timeout), Run(events[..n + 1], timeout);
    var made := MadeAt(events, n, timeout);
    assert s'.log == s.log + made && s'.log[|s.log|..] == made;
    CallMarks(f, |s.log|, events, n, timeout);
    UnmarkedTail(f, |s.log|, s'.log);
  }

  lemma OutputMade(events: seq<Event>, n: nat, timeout: real)
    requires n < |events|
    ensures var made := MadeAt(events, n, timeout); |Output(made)| == TotalOutput(made) && Fair(made)
  {
    hide Run, ByteIndices, Output, TotalOutput, Booked, ClosedOnce, NeverReopened, BelowWatermark, WatermarkReached;
    var s, s' := Run(events[..n], timeout), Run(events[..n + 1], timeout);
    var made := MadeAt(events, n, timeout);
    ExactlyOnce(events[..n + 1], timeout);
    RunMarks(Astray, events[..n + 1], timeout);
    forall i | 0 <= i < |made|
      ensures made[i] == s'.log[|s.log| + i]
    {
    }
    OutputSize(made);
  }

  /** MAIN: a call returns as many payloads as it adds to delivered + recovered if and only if
      it rebuilds no group that holds an index beyond its size and does not raise after
      booking a payload. */
  lemma CallCount(events: seq<Event>, n: nat, timeout: real)
    requires n < |events|
    ensures |ReturnedAt(events, n, timeout)| == BookedBy(events, n + 1, timeout) - BookedBy(events, n, timeout)
            <==> !ClosesAt(Astray, events, n, timeout) && !LosesAt(events, n, timeout)
    ensures !RaisesAt(events, n, timeout) ==>
              |ReturnedAt(events, n, timeout)| >= BookedBy(events, n + 1, timeout) - BookedBy(events, n, timeout)
    ensures !ClosesAt(Astray, events, n, timeout) ==>
              |ReturnedAt(events, n, timeout)| <= BookedBy(events, n + 1, timeout) - BookedBy(events, n, timeout)
  {
    hide BookedBy, ReturnedAt, ClosesAt, RaisesAt, Output, TotalBooked;
    ReturnedMade(events, n, timeout);
    BookedMade(events, n, timeout);
    MadeCounts(events, n, timeout);
    if ClosesAt(Astray, events, n, timeout) {
      AstrayPays(events, n, timeout);
    }
  }

  lemma AstrayPays(events: seq<Event>, n: nat, timeout: real)
    requires n < |events| && ClosesAt(Astray, events, n, timeout)
    ensures ClosesAt(Paying(events[n].now, timeout), events, n, timeout)
  {
    hide Met, TryRecover, OfKind;
    var met := Met(events, n, timeout).groups;
    var i: nat :| Reaches(met, events[n].order, i) && OfKind(Astray, met[events[n].order[i]]);
    PaysToo(met[events[n].order[i]], events[n].now, timeout);
  }

  lemma PaysToo(g: Group, now: real, timeout: real)
    requires OfKind(Astray, g)
    ensures OfKind(Paying(now, timeout), g)
  {
    hide TryRecover;
  }

  // ---------- Whole runs

  ghost predicate NoneRaises(events: seq<Event>, timeout: real) {
    forall n :: 0 <= n < |events| ==> !RaisesAt(events, n, timeout)
  }

  /** No call raises after it booked a payload. */
  ghost predicate NoneLoses(events: seq<Event>, timeout: real) {
    forall n :: 0 <= n < |events| ==> !LosesAt(events, n, timeout)
  }

  function AllBooked(events: seq<Event>, timeout: real): nat {
    var s := Run(events, timeout);
    s.stats.delivered + s.stats.recovered
  }

  /** MAIN: while no call raises, delivered + recovered is the number of payloads returned if
      and only if no call rebuilds a group that holds an index beyond its size. */
  lemma {:induction false} OutputCount(events: seq<Event>, timeout: real)
    requires NoneRaises(events, timeout)
    ensures |AllReturned(events, timeout)| >= AllBooked(events, timeout)
    ensures |AllReturned(events, timeout)| == AllBooked(events, timeout) <==> NeverCloses(Astray, events, timeout)
    decreases events
  {
    hide *;
    if events == [] {
      NothingReturned(timeout);
    } else {
      var n := |events| - 1;
      NoneRaisesStep(events, timeout);
      OutputCount(events[..n], timeout);
      LastCall(events, timeout);
      CallCount(events, n, timeout);
      LosesRaises(events, n, timeout);
      NeverClosesStep(Astray, events, timeout);
    }
  }

  /** MAIN: while no call rebuilds such a group, delivered + recovered is the number of
      payloads returned if and only if no call raises after booking a payload; it is never
      less. */
  lemma {:induction false} LossCount(events: seq<Event>, timeout: real)
    requires NeverCloses(Astray, events, timeout)
    ensures |AllReturned(events, timeout)| <= AllBooked(events, timeout)
    ensures |AllReturned(events, timeout)| == AllBooked(events, timeout) <==> NoneLoses(events, timeout)
    decreases events
  {
    hide *;
    if events == [] {
      NothingReturned(timeout);
    } else {
      var n := |events| - 1;
      NeverClosesStep(Astray, events, timeout);
      LossCount(events[..n], timeout);
      LastCall(events, timeout);
      CallCount(events, n, timeout);
      NoneLosesStep(events, timeout);
    }
  }

  lemma NothingReturned(timeout: real)
    ensures |AllReturned([], timeout)| == AllBooked([], timeout) == 0
    ensures NeverCloses(Astray, [], timeout) && NoneLoses([], timeout)
  {
  }

  lemma LastCall(events: seq<Event>, timeout: real)
    requires events != []
    ensures var n := |events| - 1;
            && |AllReturned(events, timeout)| == |AllReturned(events[..n], timeout)| + |ReturnedAt(events, n, timeout)|
            && AllBooked(events, timeout) == BookedBy(events, n + 1, timeout)
            && AllBooked(events[..n], timeout) == BookedBy(events, n, timeout)
  {
    hide Run, Returned;
    assert events[..|events|] == events;
  }

  lemma LosesRaises(events: seq<Event>, n: nat, timeout: real)
    requires n < |events|
    ensures LosesAt(events, n, timeout) ==> RaisesAt(events, n, timeout)
  {
  }

  lemma NoneRaisesStep(events: seq<Event>, timeout: real)
    requires events != []
    ensures NoneRaises(events, timeout)
       <==> NoneRaises(events[..|events| - 1], timeout) && !RaisesAt(events, |events| - 1, timeout)
  {
    hide Run, Poll;
    var front := events[..|events| - 1];
    forall n | 0 <= n < |front|
      ensures RaisesAt(front, n, timeout) <==> RaisesAt(events, n, timeout)
    {
      assert front[..n] == events[..n];
    }
  }

  lemma NeverClosesStep(f: Kind, events: seq<Event>, timeout: real)
    requires events != []
    ensures NeverCloses(f, events, timeout)
       <==> NeverCloses(f, events[..|events| - 1], timeout) && !ClosesAt(f, events, |events| - 1, timeout)
  {
    hide ClosesAt;
    var front := events[..|events| - 1];
    forall n | 0 <= n < |front|
      ensures ClosesAt(f, front, n, timeout) <==> ClosesAt(f, events, n, timeout)
    {
      ClosesEarlier(f, events, |events| - 1, n, timeout);
    }
  }

  lemma NoneLosesStep(events: seq<Event>, timeout: real)
    requires events != []
    ensures NoneLoses(events, timeout)
       <==> NoneLoses(events[..|events| - 1], timeout) && !LosesAt(events, |events| - 1, timeout)
  {
    hide ClosesAt, Run, Poll;
    var front := events[..|events| - 1];
    forall n | 0 <= n < |front|
      ensures LosesAt(front, n, timeout) <==> LosesAt(events, n, timeout)
    {
      assert front[..n] == events[..n];
      ClosesEarlier(Paying(events[n].now, timeout), events, |events| - 1, n, timeout);
    }
  }

  /** MAIN: when every DATA index lies inside the sizes stated by the packets of its group up
      to then -- a property of the datagrams alone -- delivered + recovered + lost equals the
      sizes of the finalised groups in every run, and delivered + recovered equals the number
      of payloads returned if and only if no call raises after booking a payload. */
  lemma CountersAgree(events: seq<Event>, timeout: real)
    requires WellIndexed(events)
    ensures var s := Run(events, timeout); s.stats.delivered + s.stats.recovered + s.stats.lost == TotalSize(s.log)
    ensures |AllReturned(events, timeout)| <= AllBooked(events, timeout)
    ensures |AllReturned(events, timeout)| == AllBooked(events, timeout) <==> NoneLoses(events, timeout)
  {
    hide Run, TotalSize, AllReturned, AllBooked, NoneLoses, NeverCloses, WellIndexed;
    WellIndexedIsSound(Overfull, events, timeout);
    WellIndexedIsSound(Astray, events, timeout);
    Conservation(events, timeout);
    LossCount(events, timeout);
  }

  // ---------- How long a group stays open

  /** What a sweep leaves open: nothing visited that it could close, unless it raises. */
  lemma {:induction false} SweepSettles(s: State, order: seq<Key>, now: real, timeout: real, key: Key)
    requires key in s.groups
    ensures var r := Sweep(s, order, now, timeout);
            && (key in r.state.groups ==> r.state.groups[key] == s.groups[key])
            && (!r.raised && key in order && Settles(s.groups[key], now, timeout) ==> key !in r.state.groups)
            && (!Settles(s.groups[key], now, timeout) ==> key in r.state.groups)
    decreases order
  {
    hide Settle, Settles;
    if order != [] {
      var first, rest := order[0], order[1..];
      var r := Settle(s, first, now, timeout);
      SettleOneKey(s, first, now, timeout, key);
      if !r.raised {
        if key in r.state.groups {
          SweepSettles(r.state, rest, now, timeout, key);
        } else {
          SweepOpensNone(r.state, rest, now, timeout, key);
        }
      }
    }
  }

  lemma SettleOneKey(s: State, first: Key, now: real, timeout: real, key: Key)
    requires key in s.groups
    ensures var r := Settle(s, first, now, timeout);
            && (key in r.state.groups ==> r.state.groups[key] == s.groups[key])
            && (key !in r.state.groups ==> first == key && Settles(s.groups[key], now, timeout))
            && (first == key && !r.raised && Settles(s.groups[key], now, timeout) ==> key !in r.state.groups)
  {
    hide TryRecover;
  }

  lemma {:induction false} SweepOpensNone(s: State, order: seq<Key>, now: real, timeout: real, key: Key)
    requires key !in s.groups
    ensures key !in Sweep(s, order, now, timeout).state.groups
    decreases order
  {
    hide TryRecover;
    if order != [] && !Settle(s, order[0], now, timeout).raised {
      SweepOpensNone(Settle(s, order[0], now, timeout).state, order[1..], now, timeout, key);
    }
  }

  /** MAIN, bounded latency: after a call that does not raise, no group is open whose first
      packet was received longer than the timeout ago, nor one that could be recovered. */
  lemma NoneOverdue(events: seq<Event>, n: nat, timeout: real, key: Key, j: nat)
    requires n < |events| && VisitsAll(events, n, timeout) && !RaisesAt(events, n, timeout)
    requires key in Run(events[..n + 1], timeout).groups && IsFirst(events, key, j)
    ensures events[n].now - events[j].created <= timeout
    ensures TryRecover(Run(events[..n + 1], timeout).groups[key]).Incomplete?
  {
    hide Run, IsArrival, TryRecover, LatestData, LatestParity;
    NoneTimedOut(events, n, timeout, key);
    var upto := events[..n + 1];
    var g := Run(upto, timeout).groups[key];
    OpenGroups(upto, timeout, key);
    var i: nat :| OpenedBy(upto, key, i, g);
    FirstStays(events, n + 1, key, i);
    OneFirst(events, key, i, j);
    assert upto[i] == events[i];
  }

  lemma OneFirst(events: seq<Event>, key: Key, i: nat, j: nat)
    requires IsFirst(events, key, i) && IsFirst(events, key, j)
    ensures i == j
  {
    hide IsArrival;
  }

  lemma NoneTimedOut(events: seq<Event>, n: nat, timeout: real, key: Key)
    requires n < |events| && VisitsAll(events, n, timeout) && !RaisesAt(events, n, timeout)
    requires key in Run(events[..n + 1], timeout).groups
    ensures var g := Run(events[..n + 1], timeout).groups[key];
            events[n].now - g.firstSeen <= timeout && TryRecover(g).Incomplete?
  {
    hide Run, Receive, Sweep, TryRecover, Jams;
    AfterCall(events, n, timeout);
    var met, e := Met(events, n, timeout), events[n];
    if key in met.groups {
      SweepSettles(met, e.order, e.now, timeout, key);
      JamsExactly(met.groups[key]);
      RaisesExactly(events, n, timeout);
    } else {
      SweepOpensNone(met, e.order, e.now, timeout, key);
    }
  }

  lemma AfterCall(events: seq<Event>, n: nat, timeout: real)
    requires n < |events|
    ensures var e := events[n];
            && Sweep(Met(events, n, timeout), e.order, e.now, timeout).state == Run(events[..n + 1], timeout)
            && (Sweep(Met(events, n, timeout), e.order, e.now, timeout).raised <==> RaisesAt(events, n, timeout))
  {
    hide Receive, Sweep;
    assert events[..n + 1][..n] == events[..n];
  }

  /** A jammed group outlives every timeout: the test for it comes after the recovery that
      raises. */
  lemma JammedStaysOpen(events: seq<Event>, n: nat, timeout: real, key: Key)
    requires n < |events| && key in Met(events, n, timeout).groups && Jams(Met(events, n, timeout).groups[key])
    ensures var s := Run(events[..n + 1], timeout);
            key in s.groups && s.groups[key] == Met(events, n, timeout).groups[key]
  {
    hide Run, Receive, Sweep, TryRecover, Jams;
    AfterCall(events, n, timeout);
    var met, e := Met(events, n, timeout), events[n];
    JamsExactly(met.groups[key]);
    SweepSettles(met, e.order, e.now, timeout, key);
  }

  /** MAIN: once a group jams, every call raises until another packet of the group arrives. */
  lemma {:induction false} JammedForGood(events: seq<Event>, n: nat, m: nat, timeout: real, key: Key)
    requires n <= m < |events| && key in Met(events, n, timeout).groups && Jams(Met(events, n, timeout).groups[key])
    requires forall i :: n < i <= m ==> !IsArrival(events[i], key)
    ensures key in Met(events, m, timeout).groups
    ensures Met(events, m, timeout).groups[key] == Met(events, n, timeout).groups[key]
    ensures VisitsAll(events, m, timeout) ==> RaisesAt(events, m, timeout)
    decreases m
  {
    hide Run, Receive, IsArrival, Jams, VisitsAll, RaisesAt;
    if n < m {
      JammedForGood(events, n, m - 1, timeout, key);
      JammedStaysOpen(events, m - 1, timeout, key);
      ReceiveElsewhere(Run(events[..m], timeout), events[m], key);
    }
    if VisitsAll(events, m, timeout) {
      RaisesExactly(events, m, timeout);
    }
  }

  lemma ReceiveElsewhere(s: State, e: Event, key: Key)
    requires key in s.groups && !IsArrival(e, key)
    ensures var s' := Receive(s, e.raw, e.created); key in s'.groups && s'.groups[key] == s.groups[key]
  {
    hide Parse;
  }
}
