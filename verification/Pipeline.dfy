/** The three processes together -- detector, sensing loop, supervisor -- interleaved in any
    order, each with its own clock readings. */
module Pipeline {
  import Numbers
  import opened Wrappers
  import opened FlightControl
  import opened FlightHistory
  import opened FlightSafety
  import opened Confirmation
  import opened Sensing
  import opened TargetBody
  import opened TargetJson

  /** The detector publishes a frame; the sensing loop runs a cycle, its request answered at
      the detector's time `poll` unless it failed; the supervisor runs a tick and takes in
      the sent message of this number, if any. */
  datatype Event =
    | Framed(frame: Frame)
    | Sensed(altitude: Option<Altitude>, now: real, poll: Option<real>)
    | Ticked(now: real, message: Option<nat>, telemetry: Option<Telemetry>)

  /** The settings, the start times, and the number printer. */
  datatype System = System(flight: Config, flightStart: real, sense: SenseConfig, lib: Library, senseStart: real,
                           show: real -> string)

  function Frames(es: seq<Event>): seq<Frame> {
    if es == [] then []
    else
      var e := es[|es| - 1];
      Frames(es[..|es| - 1]) + if e.Framed? then [e.frame] else []
  }

  /** The body the detector serves at its time `now` after these events. */
  function Served(sys: System, es: seq<Event>, now: real): string {
    TargetText(Info(TargetAfter(Frames(es)), now, sys.show))
  }

  function CycleOf(sys: System, es: seq<Event>, e: Event): Cycle
    requires e.Sensed?
  {
    Cycle(e.altitude, e.now, if e.poll.Some? then Some(Served(sys, es, e.poll.value)) else None)
  }

  function Cycles(sys: System, es: seq<Event>): seq<Cycle> {
    if es == [] then []
    else
      var front, e := es[..|es| - 1], es[|es| - 1];
      Cycles(sys, front) + if e.Sensed? then [CycleOf(sys, front, e)] else []
  }

  function SensingOf(sys: System, es: seq<Event>): Sensing {
    Sensing(sys.sense, sys.lib, sys.senseStart, Cycles(sys, es))
  }

  /** The messages published so far. */
  ghost function Messages(sys: System, es: seq<Event>): seq<RangeMsg>
  {
    Sent(SensingOf(sys, es))
  }

  ghost function TickOf(sys: System, es: seq<Event>, e: Event): Tick
    requires e.Ticked?
  {
    var sent := Messages(sys, es);
    Tick(e.now, if e.message.Some? && e.message.value < |sent| then Some(sent[e.message.value]) else None, e.telemetry)
  }

  ghost function Ticks(sys: System, es: seq<Event>): seq<Tick>
  {
    if es == [] then []
    else
      var front, e := es[..|es| - 1], es[|es| - 1];
      Ticks(sys, front) + if e.Ticked? then [TickOf(sys, front, e)] else []
  }

  ghost function SortieOf(sys: System, es: seq<Event>): Sortie
  {
    Sortie(sys.flight, sys.flightStart, Ticks(sys, es))
  }

  /** The last event is a tick that sends a setpoint moving forward or turning. */
  ghost predicate Moves(sys: System, es: seq<Event>) {
    && es != [] && es[|es| - 1].Ticked?
    && var r := SortieOf(sys, es); var n := |r.ticks| - 1;
       n >= 0 && SteersAt(r, n) && (Judged(r, n).1.vx != 0.0 || Judged(r, n).1.yawRate != 0.0)
  }

  // ---------- Number printing

  function Tenths(k: int): real { k as real / 10.0 }

  /** Tenths below this have ten digits at most, which is what the printer keeps. */
  const TEN_DIGITS := 10_000_000_000
  const BILLION := 1_000_000_000.0

  /** What is assumed of the printer of ten significant digits and the reader: numbers print
      as number tokens; one decimal survives below a thousand million; what is larger is
      not read back as something smaller than that, give or take one. */
  ghost predicate Faithful(sys: System) {
    && (forall v :: Printed(sys.show(v)))
    && forall k :: ReadsBack(sys, k)
  }

  ghost predicate ReadsBack(sys: System, k: int) {
    var read := sys.lib.read(sys.show(Tenths(k)));
    && (-TEN_DIGITS < k < TEN_DIGITS ==> read == Some(Tenths(k)))
    && (k >= TEN_DIGITS && read.Some? ==> read.value >= BILLION - 1.0)
  }

  /** The age limit is one that ten digits can tell apart. */
  predicate Usable(cfg: SenseConfig) {
    -BILLION <= cfg.targetStaleMs < BILLION - 1.0
  }

  // ---------- What backs a moving setpoint

  /** Event e0 polled the detector successfully while its newest five frames each held
      exactly one detection of one class, the newest not older than the limit (0.05 ms more,
      as the age is reported rounded to a tenth). */
  predicate Confirmed(sys: System, es: seq<Event>, e0: nat)
    requires e0 < |es|
  {
    var frames := Frames(es[..e0]);
    && es[e0].Sensed? && es[e0].poll.Some? && FiveAlike(frames)
    && (es[e0].poll.value - frames[|frames| - 1].now) * 1000.0 <= sys.sense.targetStaleMs + 0.05
  }

  /** The message of event e0 had fresh altitude and a plausible distance, no jump from the
      distance found before it. */
  ghost predicate Ranged(sys: System, es: seq<Event>, e0: nat)
    requires e0 < |es|
  {
    var x := SensingOf(sys, es[..e0 + 1]);
    var i := |x.cycles| - 1;
    && i >= 0 && FreshAltitude(x, i) && DistanceAt(x, i) <= sys.sense.maxPlausible
    && WithinJump(sys.sense, LastFound(Sent(x)[..i]), DistanceAt(x, i))
    && Sent(x)[i].distance == DistanceAt(x, i)
  }

  /** Event e1 is a tick, at most the link limit before the last event, that took in the
      message of event e0. */
  predicate Delivered(sys: System, es: seq<Event>, e0: nat, e1: nat)
    requires e0 < e1 < |es| && es[|es| - 1].Ticked?
  {
    && es[e1].Ticked? && (es[|es| - 1].now - es[e1].now) * 1000.0 <= sys.flight.track.linkStaleMs
    && es[e0].Sensed? && es[e1].message == Some(|Cycles(sys, es[..e0])|)
  }

  // ---------- Where ticks and messages come from

  /** The message numbered i of those sent before event e is taken in at tick event e. */
  ghost predicate TakenIn(sys: System, es: seq<Event>, e: nat, i: nat, t: Tick)
  {
    && e < |es| && es[e].Ticked? && es[e].message == Some(i) && es[e].now == t.now
    && i < |Messages(sys, es[..e])| && t.range == Some(Messages(sys, es[..e])[i])
  }

  lemma {:induction false} TickOrigin(sys: System, es: seq<Event>, j: nat) returns (e: nat, i: nat)
    requires j < |Ticks(sys, es)| && Ticks(sys, es)[j].range.Some?
    ensures TakenIn(sys, es, e, i, Ticks(sys, es)[j])
    ensures e < |es| && es[e].Ticked? && es[e].message == Some(i) && es[e].now == Ticks(sys, es)[j].now
    ensures i < |Messages(sys, es[..e])| && Ticks(sys, es)[j].range == Some(Messages(sys, es[..e])[i])
  {
    hide Messages;
    var front := es[..|es| - 1];
    if j < |Ticks(sys, front)| {
      e, i := TickOrigin(sys, front, j);
      assert front[..e] == es[..e];
    } else {
      e := |es| - 1;
      i := es[e].message.value;
    }
  }

  /** Cycle i is that of event e. */
  predicate RunsAt(sys: System, es: seq<Event>, e: nat, i: nat) {
    && e < |es| && es[e].Sensed? && |Cycles(sys, es[..e])| == i < |Cycles(sys, es)|
    && Cycles(sys, es)[i] == CycleOf(sys, es[..e], es[e])
    && Cycles(sys, es[..e + 1]) == Cycles(sys, es)[..i + 1]
  }

  lemma {:induction false} CycleOrigin(sys: System, es: seq<Event>, i: nat) returns (e: nat)
    requires i < |Cycles(sys, es)|
    ensures RunsAt(sys, es, e, i)
  {
    hide CycleOf;
    var front := es[..|es| - 1];
    if i < |Cycles(sys, front)| {
      e := CycleOrigin(sys, front, i);
      assert front[..e] == es[..e] && front[..e + 1] == es[..e + 1];
    } else {
      e := |es| - 1;
      assert es[..e + 1] == es;
    }
  }

  lemma {:induction false} NewestIsReceived(start: real, p: seq<Tick>) returns (j: nat)
    requires NewestRange(p).valid
    ensures j < |p| && p[j].range == Some(NewestRange(p)) && p[j].now == NewestRangeTime(start, p)
  {
    if Last(p).range.Some? {
      j := |p| - 1;
    } else {
      j := NewestIsReceived(start, Front(p));
    }
  }

  // ---------- What an admitted response proves

  lemma AdmittedMeans(sys: System, frames: seq<Frame>, now: real)
    requires Faithful(sys) && Usable(sys.sense)
    requires Admitted(sys.sense, sys.lib, TargetText(Info(TargetAfter(frames), now, sys.show)))
    ensures FiveAlike(frames)
    ensures (now - frames[|frames| - 1].now) * 1000.0 <= sys.sense.targetStaleMs + 0.05
  {
    hide TargetText, FindTopLevel, Number, TargetAfter, FiveAlike, RoundTo;
    var target := TargetAfter(frames);
    var info := Info(target, now, sys.show);
    ReadBack(info);
    ConfirmedExactly(frames);
    assert FiveAlike(frames);
    NewestTime(frames);
    var age := AgeMs(target, now);
    assert age.Some?;
    AgeInTenths(target, now);
    AgeIsClose(target, now);
    ReadAge(sys, Round10(target, now));
  }

  /** A printed age that is read back as within the limit is within the limit. */
  lemma ReadAge(sys: System, k: int)
    requires Faithful(sys) && Usable(sys.sense)
    ensures var read := sys.lib.read(sys.show(Tenths(k)));
            read.Some? && read.value <= sys.sense.targetStaleMs ==> Tenths(k) <= sys.sense.targetStaleMs
  {
    assert ReadsBack(sys, k);
  }

  lemma NewestTime(frames: seq<Frame>)
    requires FiveAlike(frames)
    ensures frames != [] && TargetAfter(frames).t == frames[|frames| - 1].now
  {
    hide Steady, StreakAfter, RoundTo;
  }

  lemma AgeInTenths(t: Target, now: real)
    requires AgeMs(t, now).Some?
    ensures AgeMs(t, now).value == Tenths(Round10(t, now))
  {
  }

  function Round10(t: Target, now: real): int {
    Numbers.Round((now - t.t) * 1000.0 * 10.0)
  }

  // ---------- The main theorem

  /** The message of cycle i is decided by the events up to that cycle. */
  lemma MessageIsOwn(sys: System, es: seq<Event>, e0: nat, i: nat)
    requires RunsAt(sys, es, e0, i)
    ensures SensingOf(sys, es[..e0 + 1]).cycles == Cycles(sys, es)[..i + 1]
    ensures Sent(SensingOf(sys, es[..e0 + 1]))[i] == Messages(sys, es)[i]
  {
    hide SenseAll, CycleOf;
    SentPrefix(sys.sense, sys.lib, sys.senseStart, Cycles(sys, es), i + 1);
  }

  lemma MessageRanged(sys: System, es: seq<Event>, e0: nat, i: nat)
    requires RunsAt(sys, es, e0, i) && Messages(sys, es)[i].valid
    ensures Ranged(sys, es, e0)
  {
    hide Placed, DistanceAt, FreshAltitude, WithinJump, LastFound, Sent, Messages, CycleOf;
    MessageIsOwn(sys, es, e0, i);
    MessageExactly(SensingOf(sys, es[..e0 + 1]), i);
  }

  lemma MessagePlaced(sys: System, es: seq<Event>, e0: nat, i: nat)
    requires RunsAt(sys, es, e0, i) && Messages(sys, es)[i].valid
    ensures e0 < |es| && es[e0].Sensed? && Placed(sys.sense, sys.lib, CycleOf(sys, es[..e0], es[e0]))
  {
    hide Placed, DistanceAt, FreshAltitude, WithinJump, LastFound, Sent, Messages, CycleOf;
    MessageIsOwn(sys, es, e0, i);
    MessageExactly(SensingOf(sys, es[..e0 + 1]), i);
  }

  lemma MessageConfirmed(sys: System, es: seq<Event>, e0: nat, i: nat)
    requires Faithful(sys) && Usable(sys.sense) && RunsAt(sys, es, e0, i) && Messages(sys, es)[i].valid
    ensures Confirmed(sys, es, e0)
  {
    hide *;
    MessagePlaced(sys, es, e0, i);
    PlacedMeans(sys, es[..e0], es[e0]);
    AdmittedMeans(sys, Frames(es[..e0]), es[e0].poll.value);
    ConfirmedBy(sys, es, e0);
  }

  lemma PlacedMeans(sys: System, es: seq<Event>, e: Event)
    requires e.Sensed? && Placed(sys.sense, sys.lib, CycleOf(sys, es, e))
    ensures e.poll.Some?
    ensures Admitted(sys.sense, sys.lib, TargetText(Info(TargetAfter(Frames(es)), e.poll.value, sys.show)))
  {
    hide Admitted, NumberIn, TargetText, Info, TargetAfter, Frames;
  }

  lemma ConfirmedBy(sys: System, es: seq<Event>, e0: nat)
    requires e0 < |es| && es[e0].Sensed? && es[e0].poll.Some? && FiveAlike(Frames(es[..e0]))
    requires var frames := Frames(es[..e0]);
             (es[e0].poll.value - frames[|frames| - 1].now) * 1000.0 <= sys.sense.targetStaleMs + 0.05
    ensures Confirmed(sys, es, e0)
  {
    hide FiveAlike, Frames;
  }

  /** What backs a message does not depend on the events after it. */
  lemma BackedWithin(sys: System, es: seq<Event>, e0: nat, e1: nat)
    requires e0 < e1 < |es|
    ensures Ranged(sys, es[..e1], e0) == Ranged(sys, es, e0) && Confirmed(sys, es[..e1], e0) == Confirmed(sys, es, e0)
  {
    hide Cycles, Frames, FiveAlike, FreshAltitude, DistanceAt, Sent, WithinJump;
    assert es[..e1][..e0] == es[..e0] && es[..e1][..e0 + 1] == es[..e0 + 1];
  }

  /** The newest message a moving setpoint relies on is valid and fresh. */
  lemma MovesTracked(sys: System, es: seq<Event>)
    requires Moves(sys, es)
    ensures es != [] && es[|es| - 1].Ticked?
    ensures var p := Ticks(sys, es);
            && p != [] && Last(p).now == es[|es| - 1].now && NewestRange(p).valid
            && (Last(p).now - NewestRangeTime(sys.flightStart, p)) * 1000.0 <= sys.flight.track.linkStaleMs
  {
    hide Messages, SteersAt, Judged, NewestRange, NewestRangeTime;
    var r := SortieOf(sys, es);
    var n := |r.ticks| - 1;
    MovesOnlyWhenTracked(r, n);
    assert Upto(r, n) == r.ticks;
  }

  lemma MessagesPrefix(sys: System, es: seq<Event>, e1: nat, i: nat) returns (e0: nat)
    requires e1 < |es| && i < |Messages(sys, es[..e1])|
    ensures e0 < e1 && RunsAt(sys, es[..e1], e0, i)
    ensures es[..e1][..e0] == es[..e0] && es[..e1][..e0 + 1] == es[..e0 + 1] && es[..e1][e0] == es[e0]
  {
    e0 := CycleOrigin(sys, es[..e1], i);
  }

  ghost predicate Backed(sys: System, es: seq<Event>, e0: nat, e1: nat)
    requires es != [] && es[|es| - 1].Ticked?
  {
    e0 < e1 < |es| && Delivered(sys, es, e0, e1) && Ranged(sys, es, e0) && Confirmed(sys, es, e0)
  }

  /** MAIN: in any interleaving of the three processes, whatever the frames, altitudes,
      losses and clocks, a setpoint that moves forward or turns rests on a message taken in
      within linkStaleMs, which carried fresh altitude, a plausible distance within maxJump
      of the one found before it, and a detection no older than targetStaleMs when polled
      and confirmed by five frames in a row with exactly one detection of one class. */
  lemma MotionIsBacked(sys: System, es: seq<Event>)
    requires Moves(sys, es) && Faithful(sys) && Usable(sys.sense)
    ensures exists e0: nat, e1: nat :: Backed(sys, es, e0, e1)
  {
    hide *;
    MovesTracked(sys, es);
    var ts := Ticks(sys, es);
    var j := NewestIsReceived(sys.flightStart, ts);
    var e1, i := TickOrigin(sys, es, j);
    var e0 := MessagesPrefix(sys, es, e1, i);
    MessageRanged(sys, es[..e1], e0, i);
    MessageConfirmed(sys, es[..e1], e0, i);
    BackedWithin(sys, es, e0, e1);
    TakenInDelivers(sys, es, e0, e1, i);
    BackedBy(sys, es, e0, e1);
  }

  lemma TakenInDelivers(sys: System, es: seq<Event>, e0: nat, e1: nat, i: nat)
    requires e0 < e1 < |es| && es[|es| - 1].Ticked? && es[e1].Ticked? && es[e1].message == Some(i)
    requires RunsAt(sys, es[..e1], e0, i) && es[..e1][..e0] == es[..e0]
    requires (es[|es| - 1].now - es[e1].now) * 1000.0 <= sys.flight.track.linkStaleMs
    ensures Delivered(sys, es, e0, e1)
  {
    hide Cycles, CycleOf;
  }

  lemma BackedBy(sys: System, es: seq<Event>, e0: nat, e1: nat)
    requires es != [] && es[|es| - 1].Ticked?
    requires e0 < e1 < |es| && Delivered(sys, es, e0, e1) && Ranged(sys, es, e0) && Confirmed(sys, es, e0)
    ensures exists a: nat, b: nat :: Backed(sys, es, a, b)
  {
    hide Delivered, Ranged, Confirmed;
    assert Backed(sys, es, e0, e1);
  }
}
