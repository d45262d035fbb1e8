/** The flight-control supervisor (control/control.cpp): a timed loop that steers toward the
    target, holds in LOITER while something is wrong, and lands when it cannot go on.

    Clock readings, range messages and vehicle telemetry are inputs.  Sends are taken to
    succeed; each appends a command to the trace. */
module FlightControl {
  import opened Wrappers
  import opened Numbers

  // ---------- Settings and messages

  /** At least the least descent speed; with less the clamp of the ceiling is undefined, as
      are that of the yaw rate with a negative limit and the taper with a zero width. */
  type Descent = r: real | r >= MIN_DESCENT witness MIN_DESCENT

  datatype Track = Track(cycleMs: real, maxForward: real, maxYawRate: NonNegative, yawAlignPx: NonZero, stopDistance: real,
                         linkStaleMs: real, targetLostLandSec: real, durationSec: real)

  datatype AltitudeLimit = AltitudeLimit(soft: real, hard: real, descentSpeed: Descent, recoveryMargin: real)

  datatype HealthLimit = HealthLimit(minPercent: int, minVoltage: real, maxHeartbeatGap: real, minFixType: int,
                                     minSatellites: int, requirePrearm: bool, requireNormalState: bool,
                                     landGap: real, posVarianceMax: real, velVarianceMax: real)

  datatype Config = Config(track: Track, alt: AltitudeLimit, health: HealthLimit)

  const K_FORWARD := 0.5
  const K_YAW := 0.006
  const ALT_GAIN := 0.5
  const MIN_DESCENT := 0.1
  const MIN_LOITER_HOLD := 3.0
  const TAKEOFF_ALTITUDE := 4.5

  datatype RangeMsg = RangeMsg(valid: bool, found: bool, altitudeValid: bool, xPx: real, altitude: real, distance: real)

  const NO_RANGE := RangeMsg(false, false, false, 0.0, 0.0, 0.0)

  const STATE_CRITICAL := 5
  const STATE_EMERGENCY := 6

  datatype Telemetry =
    | SysStatus(batteryRemaining: int, voltageMv: nat, prearmHealthy: bool)
    | GpsRaw(fixType: nat, satellites: nat)
    | Ekf(posVariance: real, velVariance: real)
    | Heartbeat(systemStatus: nat, customMode: nat, armed: bool)

  datatype Health = Health(lastHeartbeat: real, haveBattery: bool, percent: int, voltage: real, haveGps: bool,
                           fixType: nat, satellites: nat, haveSysStatus: bool, prearmHealthy: bool, systemStatus: nat,
                           haveArmed: bool, armed: bool, haveEkf: bool, posVariance: real, velVariance: real)

  function InitialHealth(start: real): Health {
    Health(start, false, -1, -1.0, false, 0, 255, false, true, 3, false, false, false, 0.0, 0.0)
  }

  datatype Mode = GUIDED | LOITER

  datatype Command =
    | SetMode(mode: Mode)
    | Arm
    | Takeoff(altitude: real)
    | RequestInterval(message: nat)
    | Velocity(vx: real, vy: real, vz: real, yawRate: real)
    | Land

  // ---------- evaluate_health_breach

  datatype Breach =
    | HeartbeatGap | LowPercent | LowVoltage | PoorGps | PrearmUnhealthy | BadState | EkfVariance | AltitudeStale

  /** One reported quantity is outside its limit; what was never reported is no breach. */
  predicate Breached(h: Health, limit: HealthLimit, now: real, b: Breach) {
    match b
    case HeartbeatGap => now - h.lastHeartbeat > limit.maxHeartbeatGap
    case LowPercent => h.haveBattery && 0 <= h.percent < limit.minPercent
    case LowVoltage => h.haveBattery && 0.0 <= h.voltage < limit.minVoltage
    case PoorGps =>
      h.haveGps && h.satellites != 255 && (h.fixType < limit.minFixType || h.satellites < limit.minSatellites)
    case PrearmUnhealthy => h.haveSysStatus && limit.requirePrearm && !h.prearmHealthy
    case BadState =>
      && h.haveSysStatus && limit.requireNormalState
      && (h.systemStatus == STATE_CRITICAL || h.systemStatus == STATE_EMERGENCY)
    case EkfVariance => h.haveEkf && (h.posVariance > limit.posVarianceMax || h.velVariance > limit.velVarianceMax)
    case AltitudeStale => false
  }

  function AddIf(reasons: seq<Breach>, condition: bool, b: Breach): seq<Breach> {
    if condition then reasons + [b] else reasons
  }

  const HEALTH_BREACHES :=
    [HeartbeatGap, LowPercent, LowVoltage, PoorGps, PrearmUnhealthy, BadState, EkfVariance]

  /** The breaches among the first n, in the order of HEALTH_BREACHES. */
  function BreachesUpTo(h: Health, limit: HealthLimit, now: real, n: nat): seq<Breach>
    requires n <= |HEALTH_BREACHES|
  {
    if n == 0 then []
    else
      var b := HEALTH_BREACHES[n - 1];
      AddIf(BreachesUpTo(h, limit, now, n - 1), Breached(h, limit, now, b), b)
  }

  function Breaches(h: Health, limit: HealthLimit, now: real): seq<Breach> {
    BreachesUpTo(h, limit, now, |HEALTH_BREACHES|)
  }

  method EvaluateHealthBreach(h: Health, limit: HealthLimit, now: real) returns (reasons: seq<Breach>)
    ensures reasons == Breaches(h, limit, now)
  {
    reasons := [];
    if now - h.lastHeartbeat > limit.maxHeartbeatGap {
      reasons := reasons + [HeartbeatGap];
    }
    assert reasons == BreachesUpTo(h, limit, now, 1);
    if h.haveBattery && h.percent >= 0 && h.percent < limit.minPercent {
      reasons := reasons + [LowPercent];
    }
    assert reasons == BreachesUpTo(h, limit, now, 2);
    if h.haveBattery && h.voltage >= 0.0 && h.voltage < limit.minVoltage {
      reasons := reasons + [LowVoltage];
    }
    assert reasons == BreachesUpTo(h, limit, now, 3);
    if h.haveGps && h.satellites != 255 && (h.fixType < limit.minFixType || h.satellites < limit.minSatellites) {
      reasons := reasons + [PoorGps];
    }
    assert reasons == BreachesUpTo(h, limit, now, 4);
    if h.haveSysStatus && limit.requirePrearm && !h.prearmHealthy {
      reasons := reasons + [PrearmUnhealthy];
    }
    assert reasons == BreachesUpTo(h, limit, now, 5);
    if h.haveSysStatus && limit.requireNormalState
       && (h.systemStatus == STATE_CRITICAL || h.systemStatus == STATE_EMERGENCY) {
      reasons := reasons + [BadState];
    }
    assert reasons == BreachesUpTo(h, limit, now, 6);
    if h.haveEkf && (h.posVariance > limit.posVarianceMax || h.velVariance > limit.velVarianceMax) {
      reasons := reasons + [EkfVariance];
    }
  }

  lemma {:induction false} ReasonsUpTo(h: Health, limit: HealthLimit, now: real, n: nat, b: Breach)
    requires n <= |HEALTH_BREACHES|
    ensures b in BreachesUpTo(h, limit, now, n) <==> b in HEALTH_BREACHES[..n] && Breached(h, limit, now, b)
  {
    hide Breached;
    if n > 0 {
      ReasonsUpTo(h, limit, now, n - 1, b);
      assert HEALTH_BREACHES[..n] == HEALTH_BREACHES[..n - 1] + [HEALTH_BREACHES[n - 1]];
    }
  }

  /** A reason is listed exactly when its quantity is out of bounds. */
  lemma ReasonsExactly(h: Health, limit: HealthLimit, now: real, b: Breach)
    ensures b in Breaches(h, limit, now) <==> Breached(h, limit, now, b)
  {
    hide BreachesUpTo;
    ReasonsUpTo(h, limit, now, |HEALTH_BREACHES|, b);
    assert HEALTH_BREACHES[..7] == HEALTH_BREACHES;
    assert b == AltitudeStale || b in HEALTH_BREACHES by {
      assert HEALTH_BREACHES[0] == HeartbeatGap && HEALTH_BREACHES[1] == LowPercent && HEALTH_BREACHES[2] == LowVoltage
        && HEALTH_BREACHES[3] == PoorGps && HEALTH_BREACHES[4] == PrearmUnhealthy && HEALTH_BREACHES[5] == BadState
        && HEALTH_BREACHES[6] == EkfVariance;
    }
  }

  /** Every reported quantity is within its limit; what was never reported is no breach. */
  predicate Healthy(h: Health, limit: HealthLimit, now: real) {
    && now - h.lastHeartbeat <= limit.maxHeartbeatGap
    && (h.haveBattery && h.percent >= 0 ==> limit.minPercent <= h.percent)
    && (h.haveBattery && h.voltage >= 0.0 ==> limit.minVoltage <= h.voltage)
    && (h.haveGps && h.satellites != 255 ==> limit.minFixType <= h.fixType && limit.minSatellites <= h.satellites)
    && (h.haveSysStatus && limit.requirePrearm ==> h.prearmHealthy)
    && (h.haveSysStatus && limit.requireNormalState ==> h.systemStatus !in {STATE_CRITICAL, STATE_EMERGENCY})
    && (h.haveEkf ==> h.posVariance <= limit.posVarianceMax && h.velVariance <= limit.velVarianceMax)
  }

  /** There is no breach exactly when every reported quantity is within its limit. */
  lemma NoBreachIsHealthy(h: Health, limit: HealthLimit, now: real)
    ensures Breaches(h, limit, now) == [] <==> Healthy(h, limit, now)
  {
    hide Breaches;
    var all := Breaches(h, limit, now);
    if all == [] {
      forall b ensures !Breached(h, limit, now, b) {
        ReasonsExactly(h, limit, now, b);
      }
      assert !Breached(h, limit, now, HeartbeatGap) && !Breached(h, limit, now, LowPercent)
        && !Breached(h, limit, now, LowVoltage) && !Breached(h, limit, now, PoorGps)
        && !Breached(h, limit, now, PrearmUnhealthy) && !Breached(h, limit, now, BadState)
        && !Breached(h, limit, now, EkfVariance);
    } else {
      ReasonsExactly(h, limit, now, all[0]);
    }
  }

  // ---------- One tick of approach_target

  /** The variables of the loop. */
  datatype Loop = Loop(lastValid: real, last: RangeMsg, health: Health, altEnforcing: bool, inLoiter: bool,
                       loiterSince: real, altitudeEverValid: bool, targetLostSince: real)

  function InitialLoop(start: real): Loop {
    Loop(start - 10.0, NO_RANGE, InitialHealth(start), false, false, start, false, start)
  }

  /** What a tick reads: the clock, the newest range message since the last tick, and at
      most one telemetry message. */
  datatype Tick = Tick(now: real, range: Option<RangeMsg>, telemetry: Option<Telemetry>)

  function LinkFresh(cfg: Config, s: Loop, now: real): bool {
    (now - s.lastValid) * 1000.0 <= cfg.track.linkStaleMs
  }

  function Tracking(cfg: Config, s: Loop, now: real): bool {
    LinkFresh(cfg, s, now) && s.last.valid && s.last.found
  }

  /** After the range message has been taken in. */
  function Polled(cfg: Config, s: Loop, t: Tick): Loop {
    var last := if t.range.Some? then t.range.value else s.last;
    var s1 := s.(last := last, lastValid := if t.range.Some? then t.now else s.lastValid,
                 altitudeEverValid := s.altitudeEverValid || last.altitudeValid);
    if Tracking(cfg, s1, t.now) then s1.(targetLostSince := t.now) else s1
  }

  predicate UnexpectedDisarm(h: Health, m: Option<Telemetry>) {
    m.Some? && m.value.Heartbeat? && h.haveArmed && h.armed && !m.value.armed
  }

  function Updated(h: Health, m: Option<Telemetry>, now: real): Health {
    match m
    case None => h
    case Some(SysStatus(remaining, mv, prearm)) =>
      h.(percent := remaining, voltage := if mv == 65535 then -1.0 else mv as real / 1000.0, prearmHealthy := prearm,
         haveBattery := true, haveSysStatus := true)
    case Some(GpsRaw(fix, satellites)) => h.(fixType := fix, satellites := satellites, haveGps := true)
    case Some(Ekf(pos, vel)) => h.(posVariance := pos, velVariance := vel, haveEkf := true)
    case Some(Heartbeat(status, mode, armed)) =>
      h.(systemStatus := status, armed := armed, haveArmed := true, lastHeartbeat := now)
  }

  /** After range message and telemetry. */
  function Heard(cfg: Config, s: Loop, t: Tick): Loop {
    var s1 := Polled(cfg, s, t);
    s1.(health := Updated(s1.health, t.telemetry, t.now))
  }

  predicate AltitudeLost(s: Loop) {
    s.altitudeEverValid && !s.last.altitudeValid
  }

  function Emergencies(cfg: Config, s: Loop, now: real): seq<Breach> {
    AddIf(Breaches(s.health, cfg.health, now), AltitudeLost(s), AltitudeStale)
  }

  /** What a tick decides. */
  datatype Verdict =
    | TimeUp
    | Disarmed
    | HeartbeatLost
    | TargetLost
    | Emergency
    | Holding
    | Steer(returning: bool, vx: real, vz: real, yawRate: real)

  predicate Ends(v: Verdict) {
    v.TimeUp? || v.Disarmed? || v.HeartbeatLost? || v.TargetLost?
  }

  function ForwardSpeed(cfg: Config, last: RangeMsg, tracking: bool): real
  {
    if tracking then
      Min(cfg.track.maxForward, K_FORWARD * Max(0.0, last.distance - cfg.track.stopDistance))
      * Clamp(1.0 - Abs(last.xPx) / cfg.track.yawAlignPx, 0.0, 1.0)
    else 0.0
  }

  function YawRate(cfg: Config, last: RangeMsg, tracking: bool): real {
    if tracking then Clamp(K_YAW * last.xPx, -(cfg.track.maxYawRate as real), cfg.track.maxYawRate) else 0.0
  }

  /** The altitude ceiling: the enforcing flag and the downward speed. */
  function Ceiling(limit: AltitudeLimit, enforcing: bool, alt: real): (bool, real) {
    if alt > limit.hard then (true, Clamp(ALT_GAIN * (alt - limit.hard), MIN_DESCENT, limit.descentSpeed))
    else if enforcing then
      if alt <= limit.hard - limit.recoveryMargin then (false, 0.0) else (true, MIN_DESCENT)
    else (false, 0.0)
  }

  predicate TimeIsUp(cfg: Config, start: real, now: real) {
    cfg.track.durationSec > 0.0 && now - start >= cfg.track.durationSec
  }

  /** The flag and downward speed the altitude ceiling gives on this tick. */
  function Vertical(cfg: Config, s: Loop, now: real): (bool, real) {
    if LinkFresh(cfg, s, now) then Ceiling(cfg.alt, s.altEnforcing, s.last.altitude) else (s.altEnforcing, 0.0)
  }

  function Steering(cfg: Config, s: Loop, now: real): (Loop, Verdict)
  {
    var tracking := Tracking(cfg, s, now);
    var (enforcing, vz) := Vertical(cfg, s, now);
    (s.(inLoiter := false, altEnforcing := enforcing),
     Steer(s.inLoiter, ForwardSpeed(cfg, s.last, tracking), vz, YawRate(cfg, s.last, tracking)))
  }

  /** The decision once the tick's messages are taken in. */
  function Decide(cfg: Config, s: Loop, now: real): (Loop, Verdict)
  {
    if now - s.health.lastHeartbeat > cfg.health.landGap then (s, HeartbeatLost)
    else if now - s.targetLostSince > cfg.track.targetLostLandSec then (s, TargetLost)
    else if Emergencies(cfg, s, now) != [] then (s.(inLoiter := true, loiterSince := now), Emergency)
    else if s.inLoiter && now - s.loiterSince < MIN_LOITER_HOLD then (s, Holding)
    else Steering(cfg, s, now)
  }

  /** The decision of one tick and the variables after it. */
  function Judge(cfg: Config, start: real, s: Loop, t: Tick): (Loop, Verdict)
  {
    if TimeIsUp(cfg, start, t.now) then (s, TimeUp)
    else if UnexpectedDisarm(s.health, t.telemetry) then (Polled(cfg, s, t), Disarmed)
    else Decide(cfg, Heard(cfg, s, t), t.now)
  }

  /** The commands a verdict sends. */
  function Commands(v: Verdict, inLoiter: bool): seq<Command> {
    match v
    case TimeUp => []
    case Disarmed => [Land]
    case HeartbeatLost => [Land]
    case TargetLost => [Land]
    case Emergency => if inLoiter then [] else [SetMode(LOITER)]
    case Holding => []
    case Steer(returning, vx, vz, yawRate) =>
      (if returning then [SetMode(GUIDED)] else []) + [Velocity(vx, 0.0, vz, yawRate)]
  }

  const ZERO_VELOCITY := Velocity(0.0, 0.0, 0.0, 0.0)

  /** The loop is still flying, or it has ended by a verdict. */
  datatype Status = Flying(loop: Loop) | Ended(how: Verdict)

  datatype Flight = Flight(status: Status, trace: seq<Command>)

  function StepFlight(cfg: Config, start: real, f: Flight, t: Tick): Flight
  {
    if f.status.Ended? then f
    else
      var (s', v) := Judge(cfg, start, f.status.loop, t);
      var trace := f.trace + Commands(v, f.status.loop.inLoiter);
      if Ends(v) then Flight(Ended(v), trace + [ZERO_VELOCITY]) else Flight(Flying(s'), trace)
  }

  /** The loop over any sequence of ticks. */
  function Run(cfg: Config, start: real, ticks: seq<Tick>): Flight
  {
    if ticks == [] then Flight(Flying(InitialLoop(start)), [])
    else StepFlight(cfg, start, Run(cfg, start, ticks[..|ticks| - 1]), ticks[|ticks| - 1])
  }

  lemma RunStep(cfg: Config, start: real, ticks: seq<Tick>, n: nat)
    requires n < |ticks|
    ensures Run(cfg, start, ticks[..n + 1]) == StepFlight(cfg, start, Run(cfg, start, ticks[..n]), ticks[n])
  {
    hide StepFlight;
    assert ticks[..n + 1][..n] == ticks[..n];
  }

  lemma {:induction false} EndedStays(cfg: Config, start: real, ticks: seq<Tick>, n: nat)
    requires n <= |ticks| && Run(cfg, start, ticks[..n]).status.Ended?
    ensures Run(cfg, start, ticks) == Run(cfg, start, ticks[..n])
    decreases |ticks|
  {
    hide Judge;
    if n == |ticks| {
      assert ticks[..n] == ticks;
    } else {
      var front := ticks[..|ticks| - 1];
      assert front[..n] == ticks[..n];
      EndedStays(cfg, start, front, n);
    }
  }

  function Finish(trace: seq<Command>): seq<Command> {
    trace + [ZERO_VELOCITY]
  }

  lemma RunNothing(cfg: Config, start: real)
    ensures Run(cfg, start, []) == Flight(Flying(InitialLoop(start)), [])
  {
  }

  /** A tick of the run, by its verdict. */
  lemma RunTick(cfg: Config, start: real, ticks: seq<Tick>, n: nat, s: Loop, trace: seq<Command>, s': Loop, v: Verdict)
    requires n < |ticks|
    requires Run(cfg, start, ticks[..n]) == Flight(Flying(s), trace)
    requires Judge(cfg, start, s, ticks[n]) == (s', v)
    ensures !Ends(v) ==> Run(cfg, start, ticks[..n + 1]) == Flight(Flying(s'), trace + Commands(v, s.inLoiter))
    ensures Ends(v) ==> Run(cfg, start, ticks) == Flight(Ended(v), Finish(trace + Commands(v, s.inLoiter)))
  {
    hide Run, Judge, Commands;
    RunStep(cfg, start, ticks, n);
    if Ends(v) {
      EndedStays(cfg, start, ticks, n + 1);
    }
  }

  lemma SteerIs(cfg: Config, s: Loop, now: real, enforcing: bool, vx: real, vz: real, yawRate: real)
    requires (enforcing, vz) == Vertical(cfg, s, now)
    requires vx == ForwardSpeed(cfg, s.last, Tracking(cfg, s, now)) && yawRate == YawRate(cfg, s.last, Tracking(cfg, s, now))
    ensures Steering(cfg, s, now)
         == (s.(inLoiter := false, altEnforcing := enforcing), Steer(s.inLoiter, vx, vz, yawRate))
  {
    hide Vertical, ForwardSpeed, YawRate, Tracking;
  }

  /** The ceiling of control.cpp:629-654, on the loop's flag. */
  method HoldCeiling(limit: AltitudeLimit, enforcing: bool, alt: real) returns (enforcing': bool, vz: real)
    requires limit.descentSpeed >= MIN_DESCENT
    ensures (enforcing', vz) == Ceiling(limit, enforcing, alt)
  {
    enforcing', vz := enforcing, 0.0;
    if alt > limit.hard {
      enforcing' := true;
      var overshoot := alt - limit.hard;
      vz := Clamp(ALT_GAIN * overshoot, MIN_DESCENT, limit.descentSpeed);
    } else if enforcing {
      if alt <= limit.hard - limit.recoveryMargin {
        enforcing' := false;
      } else {
        vz := MIN_DESCENT;
      }
    }
  }

  lemma SameLink(cfg: Config, s: Loop, health: Health, now: real)
    ensures LinkFresh(cfg, s.(health := health), now) == LinkFresh(cfg, s, now)
    ensures Tracking(cfg, s.(health := health), now) == Tracking(cfg, s, now)
  {
  }

  /** Taking in the newest range message (control.cpp:402-413). */
  method TakeRange(cfg: Config, t: Tick, ghost s: Loop, lastValid: real, last: RangeMsg, altitudeEverValid: bool,
                   targetLostSince: real)
    returns (lastValid': real, last': RangeMsg, altitudeEverValid': bool, targetLostSince': real, linkFresh: bool,
             tracking: bool)
    requires lastValid == s.lastValid && last == s.last && altitudeEverValid == s.altitudeEverValid
          && targetLostSince == s.targetLostSince
    ensures Polled(cfg, s, t) == s.(lastValid := lastValid', last := last', altitudeEverValid := altitudeEverValid',
                                    targetLostSince := targetLostSince')
    ensures tracking == Tracking(cfg, Polled(cfg, s, t), t.now) && linkFresh == LinkFresh(cfg, Polled(cfg, s, t), t.now)
  {
    lastValid', last', altitudeEverValid', targetLostSince' := lastValid, last, altitudeEverValid, targetLostSince;
    if t.range.Some? {
      last', lastValid' := t.range.value, t.now;
    }
    linkFresh := (t.now - lastValid') * 1000.0 <= cfg.track.linkStaleMs;
    if last'.altitudeValid {
      altitudeEverValid' := true;
    }
    tracking := linkFresh && last'.valid && last'.found;
    if tracking {
      targetLostSince' := t.now;
    }
  }

  /** Forward speed and yaw rate (control.cpp:614-627). */
  method SteerTo(cfg: Config, last: RangeMsg, tracking: bool) returns (vx: real, yawRate: real)
    ensures vx == ForwardSpeed(cfg, last, tracking) && yawRate == YawRate(cfg, last, tracking)
  {
    vx, yawRate := 0.0, 0.0;
    if tracking {
      var approachDistance := Max(0.0, last.distance - cfg.track.stopDistance);
      yawRate := Clamp(K_YAW * last.xPx, -(cfg.track.maxYawRate as real), cfg.track.maxYawRate);
      var align := Clamp(1.0 - Abs(last.xPx) / cfg.track.yawAlignPx, 0.0, 1.0);
      vx := Min(cfg.track.maxForward, K_FORWARD * approachDistance) * align;
    }
  }

  /** approach_target: the loop with its local variables, the early exits, and the final
      zero setpoint of its guard.  It stops when the ticks run out. */
  method ApproachTarget(cfg: Config, start: real, ticks: seq<Tick>) returns (trace: seq<Command>, exited: bool)
    ensures trace == Run(cfg, start, ticks).trace
    ensures exited == Run(cfg, start, ticks).status.Ended?
  {
    hide Run, Breaches, Healthy, Ceiling, Updated, UnexpectedDisarm, ForwardSpeed, YawRate, Finish, StepFlight, Steering,
      Polled, LinkFresh, Tracking;
    trace, exited := [], false;
    var lastValid, last, health := start - 10.0, NO_RANGE, InitialHealth(start);
    var altEnforcing, inLoiter, loiterSince := false, false, start;
    var altitudeEverValid, targetLostSince := false, start;
    RunNothing(cfg, start);
    for i := 0 to |ticks|
      invariant !exited
      invariant Run(cfg, start, ticks[..i])
        == Flight(Flying(Loop(lastValid, last, health, altEnforcing, inLoiter, loiterSince, altitudeEverValid,
                              targetLostSince)), trace)
    {
      var t := ticks[i];
      ghost var before :=
        Loop(lastValid, last, health, altEnforcing, inLoiter, loiterSince, altitudeEverValid, targetLostSince);
      if cfg.track.durationSec > 0.0 && t.now - start >= cfg.track.durationSec {
        RunTick(cfg, start, ticks, i, before, trace, before, TimeUp);
        return Finish(trace + []), true;
      }
      var linkFresh, tracking;
      lastValid, last, altitudeEverValid, targetLostSince, linkFresh, tracking :=
        TakeRange(cfg, t, before, lastValid, last, altitudeEverValid, targetLostSince);
      ghost var polled :=
        Loop(lastValid, last, health, altEnforcing, inLoiter, loiterSince, altitudeEverValid, targetLostSince);
      assert polled == Polled(cfg, before, t);
      if UnexpectedDisarm(health, t.telemetry) {
        RunTick(cfg, start, ticks, i, before, trace, polled, Disarmed);
        return Finish(trace + [Land]), true;
      }
      health := Updated(health, t.telemetry, t.now);
      ghost var heard := polled.(health := health);
      assert Judge(cfg, start, before, t) == Decide(cfg, heard, t.now);
      SameLink(cfg, polled, health, t.now);
      hide Judge, Heard;
      if t.now - health.lastHeartbeat > cfg.health.landGap {
        RunTick(cfg, start, ticks, i, before, trace, heard, HeartbeatLost);
        return Finish(trace + [Land]), true;
      }
      if t.now - targetLostSince > cfg.track.targetLostLandSec {
        RunTick(cfg, start, ticks, i, before, trace, heard, TargetLost);
        return Finish(trace + [Land]), true;
      }
      var reasons := EvaluateHealthBreach(health, cfg.health, t.now);
      if altitudeEverValid && !last.altitudeValid {
        reasons := reasons + [AltitudeStale];
      }
      assert reasons == Emergencies(cfg, heard, t.now);
      hide Emergencies;
      if reasons != [] {
        RunTick(cfg, start, ticks, i, before, trace, heard.(inLoiter := true, loiterSince := t.now), Emergency);
        if !inLoiter {
          trace := trace + [SetMode(LOITER)];
          inLoiter := true;
        }
        loiterSince := t.now;
        continue;
      }
      assert !(inLoiter && t.now - loiterSince < MIN_LOITER_HOLD) ==> Decide(cfg, heard, t.now) == Steering(cfg, heard, t.now);
      if inLoiter {
        if t.now - loiterSince < MIN_LOITER_HOLD {
          RunTick(cfg, start, ticks, i, before, trace, heard, Holding);
          continue;
        }
      }
      hide Decide;
      var vx, yawRate := SteerTo(cfg, last, tracking);
      var vz := 0.0;
      if linkFresh {
        altEnforcing, vz := HoldCeiling(cfg.alt, altEnforcing, last.altitude);
      }
      assert (altEnforcing, vz) == Vertical(cfg, heard, t.now);
      SteerIs(cfg, heard, t.now, altEnforcing, vx, vz, yawRate);
      RunTick(cfg, start, ticks, i, before, trace, heard.(inLoiter := false, altEnforcing := altEnforcing),
              Steer(inLoiter, vx, vz, yawRate));
      if inLoiter {
        trace := trace + [SetMode(GUIDED)];
        inLoiter := false;
      }
      trace := trace + [Velocity(vx, 0.0, vz, yawRate)];
    }
    assert ticks[..|ticks|] == ticks;
  }
}
