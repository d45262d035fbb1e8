/** Whole runs of the supervisor: what its loop variables remember, and what follows for
    every setpoint it sends.  The history functions below look only at the ticks. */
module FlightHistory {
  import opened Wrappers
  import opened Numbers
  import opened FlightControl

  datatype Sortie = Sortie(cfg: Config, start: real, ticks: seq<Tick>)

  /** The loop is still running before tick n. */
  predicate FlyingAt(r: Sortie, n: nat) {
    n <= |r.ticks| && Run(r.cfg, r.start, r.ticks[..n]).status.Flying?
  }

  function Before(r: Sortie, n: nat): Loop
    requires FlyingAt(r, n)
  {
    Run(r.cfg, r.start, r.ticks[..n]).status.loop
  }

  function Judged(r: Sortie, n: nat): (Loop, Verdict)
    requires FlyingAt(r, n) && n < |r.ticks|
  {
    Judge(r.cfg, r.start, Before(r, n), r.ticks[n])
  }

  /** Tick n sends a setpoint. */
  predicate SteersAt(r: Sortie, n: nat) {
    n < |r.ticks| && FlyingAt(r, n) && Judged(r, n).1.Steer?
  }

  function HeardAt(r: Sortie, n: nat): Loop
    requires FlyingAt(r, n) && n < |r.ticks|
  {
    Heard(r.cfg, Before(r, n), r.ticks[n])
  }

  /** The ticks up to and including tick n. */
  function Upto(r: Sortie, n: nat): seq<Tick>
    requires n < |r.ticks|
  {
    r.ticks[..n + 1]
  }

  lemma FlyingStep(r: Sortie, n: nat)
    requires n < |r.ticks|
    ensures FlyingAt(r, n + 1) <==> FlyingAt(r, n) && !Ends(Judged(r, n).1)
    ensures FlyingAt(r, n + 1) ==> Before(r, n + 1) == Judged(r, n).0
  {
    hide Judge, Run;
    RunStep(r.cfg, r.start, r.ticks, n);
  }

  lemma {:induction false} FlyingBefore(r: Sortie, m: nat, n: nat)
    requires m <= n && FlyingAt(r, n)
    ensures FlyingAt(r, m)
    decreases n
  {
    assert n <= |r.ticks|;
    hide FlyingAt, Judged;
    if m < n {
      FlyingStep(r, n - 1);
      FlyingBefore(r, m, n - 1);
    }
  }

  // ---------- What the ticks say

  function Last(p: seq<Tick>): Tick
    requires p != []
  {
    p[|p| - 1]
  }

  function Front(p: seq<Tick>): seq<Tick>
    requires p != []
  {
    p[..|p| - 1]
  }

  function NewestRange(p: seq<Tick>): RangeMsg {
    if p == [] then NO_RANGE else if Last(p).range.Some? then Last(p).range.value else NewestRange(Front(p))
  }

  function NewestRangeTime(start: real, p: seq<Tick>): real {
    if p == [] then start - 10.0 else if Last(p).range.Some? then Last(p).now else NewestRangeTime(start, Front(p))
  }

  predicate IsHeartbeat(t: Tick) {
    t.telemetry.Some? && t.telemetry.value.Heartbeat?
  }

  function LastHeartbeat(start: real, p: seq<Tick>): real {
    if p == [] then start else if IsHeartbeat(Last(p)) then Last(p).now else LastHeartbeat(start, Front(p))
  }

  function LastArmed(p: seq<Tick>): Option<bool> {
    if p == [] then None
    else if IsHeartbeat(Last(p)) then Some(Last(p).telemetry.value.armed)
    else LastArmed(Front(p))
  }

  /** The vehicle's state as its messages have reported it. */
  function HealthAfter(start: real, p: seq<Tick>): Health {
    if p == [] then InitialHealth(start) else Updated(HealthAfter(start, Front(p)), Last(p).telemetry, Last(p).now)
  }

  lemma {:induction false} HeartbeatIsHistory(start: real, p: seq<Tick>)
    ensures HealthAfter(start, p).lastHeartbeat == LastHeartbeat(start, p)
  {
    if p != [] {
      hide Updated;
      HeartbeatIsHistory(start, Front(p));
      UpdatedHeartbeat(HealthAfter(start, Front(p)), Last(p));
    }
  }

  lemma {:induction false} ArmedIsHistory(start: real, p: seq<Tick>)
    ensures HealthAfter(start, p).haveArmed && HealthAfter(start, p).armed <==> LastArmed(p) == Some(true)
  {
    if p != [] {
      hide Updated;
      ArmedIsHistory(start, Front(p));
      UpdatedHeartbeat(HealthAfter(start, Front(p)), Last(p));
    }
  }

  lemma UpdatedHeartbeat(h: Health, t: Tick)
    ensures var h' := Updated(h, t.telemetry, t.now);
            if IsHeartbeat(t)
            then h'.lastHeartbeat == t.now && h'.haveArmed && h'.armed == t.telemetry.value.armed
            else h'.lastHeartbeat == h.lastHeartbeat && h'.haveArmed == h.haveArmed && h'.armed == h.armed
  {
  }

  // ---------- What the vehicle has reported

  datatype Kind = SysKind | GpsKind | EkfKind | BeatKind

  predicate OfKind(m: Telemetry, kind: Kind) {
    match kind
    case SysKind => m.SysStatus?
    case GpsKind => m.GpsRaw?
    case EkfKind => m.Ekf?
    case BeatKind => m.Heartbeat?
  }

  /** The newest message of a kind. */
  function Newest(p: seq<Tick>, kind: Kind): (m: Option<Telemetry>)
    ensures m.Some? ==> OfKind(m.value, kind)
  {
    if p == [] then None
    else if Last(p).telemetry.Some? && OfKind(Last(p).telemetry.value, kind) then Last(p).telemetry
    else Newest(Front(p), kind)
  }

  /** Battery and prearm state are those of the newest SYS_STATUS, the fix that of the newest
      GPS_RAW_INT, the variances those of the newest EKF report, the system state that of the
      newest heartbeat (standby before the first); what never came is not reported. */
  predicate Reported(p: seq<Tick>, h: Health) {
    var sys, gps, ekf, beat := Newest(p, SysKind), Newest(p, GpsKind), Newest(p, EkfKind), Newest(p, BeatKind);
    && (h.haveBattery <==> sys.Some?) && (h.haveSysStatus <==> sys.Some?)
    && (sys.Some? ==>
          && h.percent == sys.value.batteryRemaining && h.prearmHealthy == sys.value.prearmHealthy
          && h.voltage == (if sys.value.voltageMv == 65535 then -1.0 else sys.value.voltageMv as real / 1000.0))
    && (h.haveGps <==> gps.Some?)
    && (gps.Some? ==> h.fixType == gps.value.fixType && h.satellites == gps.value.satellites)
    && (h.haveEkf <==> ekf.Some?)
    && (ekf.Some? ==> h.posVariance == ekf.value.posVariance && h.velVariance == ekf.value.velVariance)
    && (h.haveArmed <==> beat.Some?) && (beat.Some? ==> h.armed == beat.value.armed)
    && h.systemStatus == (if beat.Some? then beat.value.systemStatus else 3)
  }

  lemma ReportedStep(p: seq<Tick>, h: Health)
    requires p != [] && Reported(Front(p), h)
    ensures Reported(p, Updated(h, Last(p).telemetry, Last(p).now))
  {
    NewestStep(p, SysKind);
    NewestStep(p, GpsKind);
    NewestStep(p, EkfKind);
    NewestStep(p, BeatKind);
    hide Newest;
  }

  lemma NewestStep(p: seq<Tick>, kind: Kind)
    requires p != []
    ensures var m := Last(p).telemetry;
            Newest(p, kind) == if m.Some? && OfKind(m.value, kind) then m else Newest(Front(p), kind)
  {
  }

  lemma NothingReported(start: real)
    ensures Reported([], InitialHealth(start))
  {
  }

  lemma {:induction false} HealthIsReported(start: real, p: seq<Tick>)
    ensures Reported(p, HealthAfter(start, p))
  {
    hide Reported, Updated;
    if p == [] {
      NothingReported(start);
    } else {
      HealthIsReported(start, Front(p));
      ReportedStep(p, HealthAfter(start, Front(p)));
    }
  }

  /** Everything the messages of p report is within the limits: heartbeats recent enough, the
      newest battery charge, voltage, prearm check, fix, variances and system state in range.
      A charge below 0, a voltage of 65535 mV and 255 satellites mean unknown. */
  predicate WithinLimits(limit: HealthLimit, start: real, p: seq<Tick>)
    requires p != []
  {
    var sys, gps, ekf, beat := Newest(p, SysKind), Newest(p, GpsKind), Newest(p, EkfKind), Newest(p, BeatKind);
    && Last(p).now - LastHeartbeat(start, p) <= limit.maxHeartbeatGap
    && (sys.Some? ==>
          && (sys.value.batteryRemaining >= 0 ==> limit.minPercent <= sys.value.batteryRemaining)
          && (sys.value.voltageMv != 65535 ==> limit.minVoltage <= sys.value.voltageMv as real / 1000.0)
          && (limit.requirePrearm ==> sys.value.prearmHealthy)
          && (limit.requireNormalState && beat.Some? ==> beat.value.systemStatus != 5 && beat.value.systemStatus != 6))
    && (gps.Some? && gps.value.satellites != 255 ==>
          limit.minFixType <= gps.value.fixType && limit.minSatellites <= gps.value.satellites)
    && (ekf.Some? ==> ekf.value.posVariance <= limit.posVarianceMax && ekf.value.velVariance <= limit.velVarianceMax)
  }

  lemma HealthyMeans(limit: HealthLimit, start: real, p: seq<Tick>, h: Health)
    requires p != [] && Reported(p, h) && h.lastHeartbeat == LastHeartbeat(start, p)
    ensures Healthy(h, limit, Last(p).now) <==> WithinLimits(limit, start, p)
  {
    hide LastHeartbeat, Newest;
    var sys := Newest(p, SysKind);
    if sys.Some? {
      assert OfKind(sys.value, SysKind);
      assert sys.value.voltageMv as real / 1000.0 >= 0.0;
    }
  }

  predicate ReportsAltitude(t: Tick) {
    t.range.Some? && t.range.value.altitudeValid
  }

  predicate EverAltitude(p: seq<Tick>) {
    exists i :: 0 <= i < |p| && ReportsAltitude(p[i])
  }

  predicate Fresh(cfg: Config, start: real, p: seq<Tick>)
    requires p != []
  {
    (Last(p).now - NewestRangeTime(start, p)) * 1000.0 <= cfg.track.linkStaleMs
  }

  /** At the last tick of p the newest message is fresh and carries a valid target. */
  predicate Tracked(cfg: Config, start: real, p: seq<Tick>)
    requires p != []
  {
    Fresh(cfg, start, p) && NewestRange(p).valid && NewestRange(p).found
  }

  function LastTracked(cfg: Config, start: real, p: seq<Tick>): real {
    if p == [] then start else if Tracked(cfg, start, p) then Last(p).now else LastTracked(cfg, start, Front(p))
  }

  // ---------- The variables are that history

  predicate Matches(cfg: Config, start: real, p: seq<Tick>, s: Loop) {
    && s.last == NewestRange(p)
    && s.lastValid == NewestRangeTime(start, p)
    && s.health == HealthAfter(start, p)
    && s.targetLostSince == LastTracked(cfg, start, p)
    && (s.altitudeEverValid <==> EverAltitude(p))
    && (s.last.altitudeValid ==> s.altitudeEverValid)
  }

  lemma EverAltitudeStep(p: seq<Tick>, t: Tick)
    ensures EverAltitude(p + [t]) <==> EverAltitude(p) || ReportsAltitude(t)
  {
    hide ReportsAltitude;
    var q := p + [t];
    if EverAltitude(p) {
      var i :| 0 <= i < |p| && ReportsAltitude(p[i]);
      assert q[i] == p[i];
    }
    assert q[|p|] == t;
  }

  lemma SameTracking(cfg: Config, start: real, q: seq<Tick>, s: Loop)
    requires q != [] && s.last == NewestRange(q) && s.lastValid == NewestRangeTime(start, q)
    ensures Tracking(cfg, s, Last(q).now) == Tracked(cfg, start, q)
    ensures LinkFresh(cfg, s, Last(q).now) == Fresh(cfg, start, q)
  {
  }

  lemma PollingMatches(cfg: Config, start: real, p: seq<Tick>, s: Loop, t: Tick)
    requires Matches(cfg, start, p, s)
    ensures var s1 := Polled(cfg, s, t); var q := p + [t];
            && s1.last == NewestRange(q) && s1.lastValid == NewestRangeTime(start, q)
            && s1.targetLostSince == LastTracked(cfg, start, q) && s1.health == s.health
            && (s1.altitudeEverValid <==> EverAltitude(q)) && (s1.last.altitudeValid ==> s1.altitudeEverValid)
  {
    hide LinkFresh, Fresh, Tracked, Tracking, EverAltitude;
    var q, s1 := p + [t], Polled(cfg, s, t);
    assert Front(q) == p && Last(q) == t;
    EverAltitudeStep(p, t);
    SameTracking(cfg, start, q, s.(last := s1.last, lastValid := s1.lastValid, altitudeEverValid := s1.altitudeEverValid));
  }

  lemma HearingMatches(cfg: Config, start: real, p: seq<Tick>, s: Loop, t: Tick)
    requires Matches(cfg, start, p, s)
    ensures Matches(cfg, start, p + [t], Heard(cfg, s, t))
  {
    PollingMatches(cfg, start, p, s, t);
    hide Polled, NewestRange, NewestRangeTime, LastTracked, EverAltitude, Updated;
    assert Front(p + [t]) == p && Last(p + [t]) == t;
  }

  lemma DecidingMatches(cfg: Config, start: real, s: Loop, t: Tick, p: seq<Tick>)
    requires !Ends(Judge(cfg, start, s, t).1) && Matches(cfg, start, p, Heard(cfg, s, t))
    ensures Matches(cfg, start, p, Judge(cfg, start, s, t).0)
  {
    hide Heard, Emergencies, Vertical, ForwardSpeed, YawRate, Tracking, NewestRange, NewestRangeTime, HealthAfter,
      LastTracked, EverAltitude;
  }

  lemma StartMatches(cfg: Config, start: real)
    ensures Matches(cfg, start, [], InitialLoop(start))
  {
  }

  /** After any run that is still flying, the loop's variables hold exactly the newest
      message and its time, what the newest telemetry of each kind reported, the last
      heartbeat's time, the last time the target was tracked, and whether an altitude was
      ever valid. */
  lemma VariablesAreHistory(r: Sortie, n: nat)
    requires FlyingAt(r, n)
    ensures Matches(r.cfg, r.start, r.ticks[..n], Before(r, n))
    ensures Reported(r.ticks[..n], Before(r, n).health)
    ensures Before(r, n).health.lastHeartbeat == LastHeartbeat(r.start, r.ticks[..n])
  {
    hide Judge, Heard, Run, Reported, NewestRange, NewestRangeTime, LastTracked, EverAltitude, HealthAfter, LastHeartbeat;
    VariablesMatch(r, n);
    HealthIsReported(r.start, r.ticks[..n]);
    HeartbeatIsHistory(r.start, r.ticks[..n]);
  }

  lemma {:induction false} VariablesMatch(r: Sortie, n: nat)
    requires FlyingAt(r, n)
    ensures Matches(r.cfg, r.start, r.ticks[..n], Before(r, n))
  {
    hide Matches, Judge, Heard, Run;
    if n == 0 {
      StartMatches(r.cfg, r.start);
      assert r.ticks[..0] == [];
      RunNothing(r.cfg, r.start);
    } else {
      FlyingStep(r, n - 1);
      VariablesMatch(r, n - 1);
      HearingMatches(r.cfg, r.start, r.ticks[..n - 1], Before(r, n - 1), r.ticks[n - 1]);
      assert r.ticks[..n - 1] + [r.ticks[n - 1]] == r.ticks[..n];
      DecidingMatches(r.cfg, r.start, Before(r, n - 1), r.ticks[n - 1], r.ticks[..n]);
    }
  }

  lemma HeardIsHistory(r: Sortie, n: nat)
    requires FlyingAt(r, n) && n < |r.ticks|
    ensures Matches(r.cfg, r.start, Upto(r, n), HeardAt(r, n))
  {
    hide Matches, Heard, Run;
    VariablesMatch(r, n);
    HearingMatches(r.cfg, r.start, r.ticks[..n], Before(r, n), r.ticks[n]);
    assert r.ticks[..n] + [r.ticks[n]] == r.ticks[..n + 1];
  }

  // ---------- Every setpoint is sent in safety

  /** No emergency at the last tick of p: everything reported is within its limit and, once an
      altitude was valid, the newest message's altitude is. */
  predicate Sound(cfg: Config, start: real, p: seq<Tick>)
    requires p != []
  {
    WithinLimits(cfg.health, start, p) && (EverAltitude(p) ==> NewestRange(p).altitudeValid)
  }

  /** Nothing is wrong at the last tick of p, as far as the messages of p tell. */
  predicate Safe(cfg: Config, start: real, p: seq<Tick>)
    requires p != []
  {
    && Sound(cfg, start, p)
    && Last(p).now - LastHeartbeat(start, p) <= cfg.health.landGap
    && Last(p).now - LastTracked(cfg, start, p) <= cfg.track.targetLostLandSec
    && (EverAltitude(p) <==> NewestRange(p).altitudeValid)
  }

  /** The emergencies of a tick are what its messages say. */
  lemma EmergenciesExactly(r: Sortie, n: nat)
    requires FlyingAt(r, n) && n < |r.ticks|
    ensures Emergencies(r.cfg, HeardAt(r, n), r.ticks[n].now) == [] <==> Sound(r.cfg, r.start, Upto(r, n))
  {
    hide Run, Heard, Breaches, NewestRange, NewestRangeTime, LastHeartbeat, HealthAfter, LastTracked, EverAltitude,
      Reported, WithinLimits, Healthy;
    var h := HeardAt(r, n);
    HeardIsHistory(r, n);
    HealthIsReported(r.start, Upto(r, n));
    HeartbeatIsHistory(r.start, Upto(r, n));
    HealthyMeans(r.cfg.health, r.start, Upto(r, n), h.health);
    NoBreachIsHealthy(h.health, r.cfg.health, r.ticks[n].now);
  }

  lemma SteerMeans(cfg: Config, s: Loop, now: real)
    requires Decide(cfg, s, now).1.Steer?
    ensures Breaches(s.health, cfg.health, now) == [] && !AltitudeLost(s)
    ensures now - s.health.lastHeartbeat <= cfg.health.landGap
    ensures now - s.targetLostSince <= cfg.track.targetLostLandSec
    ensures s.inLoiter ==> now - s.loiterSince >= MIN_LOITER_HOLD
    ensures Decide(cfg, s, now) == Steering(cfg, s, now)
  {
    hide Breaches, AltitudeLost, Steering;
  }

  lemma SteersMeans(r: Sortie, n: nat)
    requires SteersAt(r, n)
    ensures Decide(r.cfg, HeardAt(r, n), r.ticks[n].now).1.Steer?
    ensures Judged(r, n) == Decide(r.cfg, HeardAt(r, n), r.ticks[n].now)
  {
    hide Decide, Run, Heard;
  }

  /** Whatever the messages and clocks, a setpoint is only sent on a tick with no breach: all
      reported health within limits, heartbeats no further apart than both limits, the
      target lost for no longer than allowed, and -- once any altitude was valid -- the newest
      message's altitude valid. */
  lemma SetpointsAreSafe(r: Sortie, n: nat)
    requires SteersAt(r, n)
    ensures Safe(r.cfg, r.start, Upto(r, n))
  {
    hide Decide, Run, Heard, Breaches, NewestRange, NewestRangeTime, LastHeartbeat, HealthAfter, LastTracked, EverAltitude,
      WithinLimits;
    SteersMeans(r, n);
    var h := HeardAt(r, n);
    SteerMeans(r.cfg, h, r.ticks[n].now);
    HeardIsHistory(r, n);
    HeartbeatIsHistory(r.start, Upto(r, n));
    EmergenciesExactly(r, n);
  }
}
