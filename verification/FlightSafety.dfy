/** The watchdogs, the LOITER hold, the altitude ceiling and the end of the loop, over
    whole runs. */
module FlightSafety {
  import opened Wrappers
  import opened Numbers
  import opened FlightControl
  import opened FlightHistory

  // ---------- Holding in LOITER

  predicate Monotone(r: Sortie) {
    forall i, j :: 0 <= i <= j < |r.ticks| ==> r.ticks[i].now <= r.ticks[j].now
  }

  predicate EmergencyAt(r: Sortie, n: nat) {
    n < |r.ticks| && FlyingAt(r, n) && Judged(r, n).1.Emergency?
  }

  /** What a tick does to the LOITER variables. */
  lemma LoiterStep(cfg: Config, start: real, s: Loop, t: Tick)
    requires !Ends(Judge(cfg, start, s, t).1)
    ensures var (s', v) := Judge(cfg, start, s, t);
            match v
            case Emergency => s'.inLoiter && s'.loiterSince == t.now
            case Holding => s'.inLoiter && s.inLoiter && s'.loiterSince == s.loiterSince
            case _ => !s'.inLoiter && (s.inLoiter ==> t.now - s.loiterSince >= MIN_LOITER_HOLD)
  {
    hide Emergencies, Vertical, ForwardSpeed, YawRate, Tracking, Updated;
  }

  /** After a breach at tick m: still holding in LOITER since then or later, or at least
      the hold time has passed. */
  predicate HoldsSince(r: Sortie, m: nat, n: nat)
    requires m < n && FlyingAt(r, n)
  {
    var s := Before(r, n);
    || (s.inLoiter && r.ticks[m].now <= s.loiterSince)
    || r.ticks[n - 1].now - r.ticks[m].now >= MIN_LOITER_HOLD
  }

  lemma {:induction false} HeldAfterBreach(r: Sortie, m: nat, n: nat)
    requires Monotone(r) && EmergencyAt(r, m) && m < n && FlyingAt(r, n)
    ensures HoldsSince(r, m, n)
    decreases n
  {
    hide Judge, Run;
    FlyingStep(r, n - 1);
    LoiterStep(r.cfg, r.start, Before(r, n - 1), r.ticks[n - 1]);
    if m < n - 1 {
      HeldAfterBreach(r, m, n - 1);
    }
  }

  /** With a monotone clock, the first setpoint after a breach, and so every one, comes
      at least three seconds after the last tick of that breach. */
  lemma HoldBeforeReturn(r: Sortie, m: nat, n: nat)
    requires Monotone(r) && EmergencyAt(r, m) && m < n && SteersAt(r, n)
    ensures r.ticks[n].now - r.ticks[m].now >= 3.0
  {
    hide Judge, Run;
    HeldAfterBreach(r, m, n);
    LoiterStep(r.cfg, r.start, Before(r, n), r.ticks[n]);
  }

  /** Tick m is the newest emergency before n and nothing was steered since. */
  predicate HoldingFrom(r: Sortie, m: nat, n: nat) {
    && m < n && EmergencyAt(r, m)
    && forall j :: m < j < n ==> !EmergencyAt(r, j) && !SteersAt(r, j)
  }

  lemma VerdictKinds(cfg: Config, start: real, s: Loop, t: Tick)
    ensures var v := Judge(cfg, start, s, t).1;
            Ends(v) || v.Emergency? || v.Holding? || v.Steer?
  {
    hide Heard, Emergencies, Vertical, ForwardSpeed, YawRate, Tracking;
  }

  /** The loop holds exactly since the newest emergency after which nothing was steered. */
  lemma {:induction false} LoiterIsHistory(r: Sortie, n: nat)
    requires FlyingAt(r, n)
    ensures Before(r, n).inLoiter <==> exists m: nat :: HoldingFrom(r, m, n)
    ensures forall m: nat :: HoldingFrom(r, m, n) ==> Before(r, n).loiterSince == r.ticks[m].now
    decreases n
  {
    if n == 0 {
      assert r.ticks[..0] == [];
      RunNothing(r.cfg, r.start);
    } else {
      hide Judge, Run;
      FlyingStep(r, n - 1);
      LoiterIsHistory(r, n - 1);
      var s, t := Before(r, n - 1), r.ticks[n - 1];
      LoiterStep(r.cfg, r.start, s, t);
      VerdictKinds(r.cfg, r.start, s, t);
      HoldingStep(r, n - 1, n);
    }
  }

  lemma HoldingStep(r: Sortie, n: nat, next: nat)
    requires n < |r.ticks| && FlyingAt(r, n) && next == n + 1
    ensures EmergencyAt(r, n) ==> HoldingFrom(r, n, next) && forall m: nat :: HoldingFrom(r, m, next) ==> m == n
    ensures !EmergencyAt(r, n) && !SteersAt(r, n) ==>
              forall m: nat :: HoldingFrom(r, m, next) <==> HoldingFrom(r, m, n)
    ensures SteersAt(r, n) ==> forall m: nat :: !HoldingFrom(r, m, next)
  {
    hide Judge, Run;
  }

  /** The loop is still waiting out an emergency: nothing was steered since one less than three
      seconds ago, and it was the newest. */
  ghost predicate StillHolding(r: Sortie, n: nat)
    requires n < |r.ticks|
  {
    exists m: nat :: HoldingFrom(r, m, n) && r.ticks[n].now - r.ticks[m].now < 3.0
  }

  lemma DecideKinds(cfg: Config, s: Loop, now: real)
    ensures var v := Decide(cfg, s, now).1;
            && (v.Emergency? <==> !Ends(v) && Emergencies(cfg, s, now) != [])
            && (v.Steer? <==> !Ends(v) && Emergencies(cfg, s, now) == [] && !(s.inLoiter && now - s.loiterSince < 3.0))
  {
    hide Emergencies, Vertical, ForwardSpeed, YawRate, Tracking;
  }

  /** MAIN: what every tick does, by the history alone: while the loop goes on, it holds with an
      emergency exactly when something reported is out of bounds or the altitude is lost, and
      otherwise sends a setpoint exactly unless the newest emergency is less than three seconds
      old and nothing was steered since. */
  lemma TickExactly(r: Sortie, n: nat)
    requires FlyingAt(r, n) && n < |r.ticks|
    ensures var ends := TimeIsUp(r.cfg, r.start, r.ticks[n].now) || MustEnd(r.cfg, r.start, Upto(r, n));
            && (EmergencyAt(r, n) <==> !ends && !Sound(r.cfg, r.start, Upto(r, n)))
            && (SteersAt(r, n) <==> !ends && Sound(r.cfg, r.start, Upto(r, n)) && !StillHolding(r, n))
  {
    hide Run, Heard, Decide, Emergencies, Sound, MustEnd, HoldingFrom;
    EndsExactly(r, n);
    FlyingStep(r, n);
    EmergenciesExactly(r, n);
    LoiterIsHistory(r, n);
    HeardKeepsLoiter(r.cfg, Before(r, n), r.ticks[n]);
    DecideKinds(r.cfg, HeardAt(r, n), r.ticks[n].now);
  }

  lemma HeardKeepsLoiter(cfg: Config, s: Loop, t: Tick)
    ensures Heard(cfg, s, t).inLoiter == s.inLoiter && Heard(cfg, s, t).loiterSince == s.loiterSince
  {
    hide Updated, Tracking;
  }

  // ---------- The altitude ceiling

  predicate FreshAt(r: Sortie, n: nat)
    requires n < |r.ticks|
  {
    Fresh(r.cfg, r.start, Upto(r, n))
  }

  function AltitudeAt(r: Sortie, n: nat): real
    requires n < |r.ticks|
  {
    NewestRange(Upto(r, n)).altitude
  }

  /** Tick n got as far as the ceiling with a fresh message. */
  predicate Evaluated(r: Sortie, n: nat) {
    SteersAt(r, n) && FreshAt(r, n)
  }

  predicate Exceeded(r: Sortie, n: nat) {
    Evaluated(r, n) && AltitudeAt(r, n) > r.cfg.alt.hard
  }

  predicate Recovered(r: Sortie, n: nat) {
    Evaluated(r, n) && AltitudeAt(r, n) <= r.cfg.alt.hard - r.cfg.alt.recoveryMargin
  }

  /** Some evaluated tick before n exceeded the limit and none after it recovered. */
  ghost predicate Enforcing(r: Sortie, n: nat) {
    exists i: nat :: ExceededLast(r, i, n)
  }

  predicate ExceededLast(r: Sortie, i: nat, n: nat) {
    i < n && Exceeded(r, i) && forall j :: i < j < n ==> !Recovered(r, j)
  }

  lemma EnforcingStep(r: Sortie, n: nat)
    ensures Enforcing(r, n + 1) <==> Exceeded(r, n) || (Enforcing(r, n) && !Recovered(r, n))
  {
    hide Exceeded, Recovered;
    if Enforcing(r, n + 1) {
      var i: nat :| ExceededLast(r, i, n + 1);
      if i < n {
        assert ExceededLast(r, i, n);
      }
    }
    if Exceeded(r, n) {
      assert ExceededLast(r, n, n + 1);
    }
    if Enforcing(r, n) && !Recovered(r, n) {
      var i: nat :| ExceededLast(r, i, n);
      assert ExceededLast(r, i, n + 1);
    }
  }

  /** The flag after a tick, and the downward speed of its setpoint. */
  lemma CeilingStep(cfg: Config, start: real, s: Loop, t: Tick)
    requires !Ends(Judge(cfg, start, s, t).1)
    ensures var (s', v) := Judge(cfg, start, s, t); var h := Heard(cfg, s, t);
            if v.Steer? then (s'.altEnforcing, v.vz) == Vertical(cfg, h, t.now) && h.altEnforcing == s.altEnforcing
            else s'.altEnforcing == s.altEnforcing
  {
    hide Emergencies, Vertical, ForwardSpeed, YawRate, Tracking, Updated;
  }

  lemma LinkIsFresh(r: Sortie, n: nat)
    requires n < |r.ticks| && FlyingAt(r, n)
    ensures LinkFresh(r.cfg, HeardAt(r, n), r.ticks[n].now) == FreshAt(r, n)
    ensures HeardAt(r, n).last.altitude == AltitudeAt(r, n)
    ensures Tracking(r.cfg, HeardAt(r, n), r.ticks[n].now) == Tracked(r.cfg, r.start, Upto(r, n))
  {
    hide Heard, Run, NewestRange, NewestRangeTime, LinkFresh, Fresh, Tracking, Tracked;
    HeardIsHistory(r, n);
    SameTracking(r.cfg, r.start, Upto(r, n), HeardAt(r, n));
  }

  /** The loop's flag is the history predicate, for any limits and any margin. */
  lemma {:induction false} CeilingIsHistory(r: Sortie, n: nat)
    requires FlyingAt(r, n)
    ensures Before(r, n).altEnforcing <==> Enforcing(r, n)
  {
    if n == 0 {
      assert r.ticks[..0] == [];
    } else {
      hide Judge, Run, Heard, LinkFresh, FreshAt, AltitudeAt, Enforcing;
      FlyingStep(r, n - 1);
      CeilingIsHistory(r, n - 1);
      EnforcingStep(r, n - 1);
      CeilingStep(r.cfg, r.start, Before(r, n - 1), r.ticks[n - 1]);
      LinkIsFresh(r, n - 1);
    }
  }

  /** The correction for an altitude: proportional to the overshoot between the least speed
      and descentSpeed, at the least speed while settling. */
  predicate Correction(limit: AltitudeLimit, alt: real, vz: real) {
    var wanted := 0.5 * (alt - limit.hard);
    && 0.1 <= vz <= limit.descentSpeed
    && (wanted <= 0.1 ==> vz == 0.1)
    && (0.1 <= wanted <= limit.descentSpeed ==> vz == wanted)
    && (wanted >= limit.descentSpeed ==> vz == limit.descentSpeed)
  }

  lemma CeilingSpeed(limit: AltitudeLimit, enforcing: bool, alt: real)
    ensures var (on, vz) := Ceiling(limit, enforcing, alt);
            if on then Correction(limit, alt, vz) else vz == 0.0
  {
  }

  /** A setpoint descends, in proportion to the overshoot from 0.1 m/s to descentSpeed,
      exactly when the newest message is fresh and the ceiling is being enforced; otherwise
      its vertical speed is zero. */
  lemma DescendsExactly(r: Sortie, n: nat)
    requires SteersAt(r, n)
    ensures var vz := Judged(r, n).1.vz;
            if FreshAt(r, n) && Enforcing(r, n + 1)
            then Correction(r.cfg.alt, AltitudeAt(r, n), vz)
            else vz == 0.0
  {
    hide Judge, Run, Heard, LinkFresh, FreshAt, AltitudeAt, Enforcing, Ceiling, Correction;
    CeilingIsHistory(r, n);
    FlyingStep(r, n);
    CeilingIsHistory(r, n + 1);
    CeilingStep(r.cfg, r.start, Before(r, n), r.ticks[n]);
    LinkIsFresh(r, n);
    CeilingSpeed(r.cfg.alt, Before(r, n).altEnforcing, AltitudeAt(r, n));
  }

  /** The altitude the ceiling acts on is marked invalid exactly when no altitude has been
      valid yet. */
  lemma CeilingUnchecked(r: Sortie, n: nat)
    requires SteersAt(r, n)
    ensures !NewestRange(Upto(r, n)).altitudeValid <==> !EverAltitude(Upto(r, n))
  {
    hide Judge, Run, WithinLimits, LastTracked, LastHeartbeat, EverAltitude, NewestRange;
    SetpointsAreSafe(r, n);
  }

  /** One message, marked invalid, a metre above the hard limit. */
  function InvalidAltitude(cfg: Config): Sortie {
    Sortie(cfg, 0.0, [Tick(0.0, Some(RangeMsg(false, false, false, 0.0, cfg.alt.hard + 1.0, 0.0)), None)])
  }

  /** With any usable limits the first setpoint descends on an altitude marked invalid. */
  lemma DescendsOnInvalid(cfg: Config)
    requires cfg.track.durationSec > 0.0 && cfg.track.linkStaleMs >= 0.0 && cfg.track.targetLostLandSec >= 0.0
    requires cfg.health.landGap >= 0.0 && cfg.health.maxHeartbeatGap >= 0.0
    ensures var r := InvalidAltitude(cfg);
            && SteersAt(r, 0) && FreshAt(r, 0) && !NewestRange(Upto(r, 0)).altitudeValid
            && Judged(r, 0).1.vz >= MIN_DESCENT
  {
    hide Breaches, ForwardSpeed, YawRate;
    var r := InvalidAltitude(cfg);
    assert r.ticks[..0] == [] && Upto(r, 0) == r.ticks;
    RunNothing(cfg, 0.0);
    NoBreachIsHealthy(InitialHealth(0.0), cfg.health, 0.0);
  }

  // ---------- The horizontal setpoint

  lemma Product(speed: real, share: real, most: real)
    requires 0.0 <= speed <= most && 0.0 <= share <= 1.0
    ensures 0.0 <= speed * share <= most
  {
    assert speed * share <= speed * 1.0;
  }

  /** The speeds a message asks for: within the limits, and forward only when farther than
      the stopping distance and, with a positive alignment width, less than that width off
      centre. */
  lemma SpeedsBounded(cfg: Config, last: RangeMsg, tracking: bool)
    requires cfg.track.maxForward >= 0.0
    ensures 0.0 <= ForwardSpeed(cfg, last, tracking) <= cfg.track.maxForward
    ensures -(cfg.track.maxYawRate as real) <= YawRate(cfg, last, tracking) <= cfg.track.maxYawRate
    ensures ForwardSpeed(cfg, last, tracking) != 0.0 || YawRate(cfg, last, tracking) != 0.0 ==> tracking
    ensures last.distance <= cfg.track.stopDistance ==> ForwardSpeed(cfg, last, tracking) == 0.0
    ensures Abs(last.xPx) >= cfg.track.yawAlignPx > 0.0 ==> ForwardSpeed(cfg, last, tracking) == 0.0
  {
    var speed := Min(cfg.track.maxForward, K_FORWARD * Max(0.0, last.distance - cfg.track.stopDistance));
    var share := 1.0 - Abs(last.xPx) / cfg.track.yawAlignPx;
    Product(speed, Clamp(share, 0.0, 1.0), cfg.track.maxForward);
    if Abs(last.xPx) >= cfg.track.yawAlignPx > 0.0 {
      assert share <= 0.0 by { AtLeastOne(Abs(last.xPx), cfg.track.yawAlignPx); }
    }
  }

  lemma AtLeastOne(a: real, b: real)
    requires a >= b > 0.0
    ensures a / b >= 1.0
  {
  }

  /** The tracking law: forward exactly while the target is beyond the stopping distance and
      within the alignment width of the centre; full speed, centred, exactly from
      maxForward / 0.5 beyond the stopping distance; and turning toward the target, at
      the full rate exactly from maxYawRate / 0.006 pixels off centre. */
  lemma TrackingLaw(cfg: Config, last: RangeMsg)
    requires cfg.track.maxForward > 0.0 && cfg.track.maxYawRate > 0.0 && cfg.track.yawAlignPx > 0.0
    ensures var vx := ForwardSpeed(cfg, last, true); var yaw := YawRate(cfg, last, true);
            var beyond := last.distance - cfg.track.stopDistance;
            && (vx > 0.0 <==> beyond > 0.0 && Abs(last.xPx) < cfg.track.yawAlignPx)
            && (last.xPx == 0.0 ==> (vx == cfg.track.maxForward <==> beyond >= cfg.track.maxForward / 0.5))
            && (yaw > 0.0 <==> last.xPx > 0.0) && (yaw < 0.0 <==> last.xPx < 0.0)
            && (Abs(yaw) == cfg.track.maxYawRate <==> Abs(last.xPx) >= cfg.track.maxYawRate / 0.006)
  {
    var track := cfg.track;
    var speed := Min(track.maxForward, K_FORWARD * Max(0.0, last.distance - track.stopDistance));
    var ratio := Abs(last.xPx) / track.yawAlignPx;
    Ratio(Abs(last.xPx), track.yawAlignPx);
    var share := Clamp(1.0 - ratio, 0.0, 1.0);
    assert share > 0.0 <==> Abs(last.xPx) < track.yawAlignPx;
    PositiveProduct(speed, share);
  }

  /** Between its thresholds the law is linear: centred, the speed is half the distance beyond
      the stopping distance per second; off centre it falls in proportion to what is left of the
      alignment width; the turn rate is 0.006 rad/s per pixel. */
  lemma LinearLaw(cfg: Config, last: RangeMsg)
    requires cfg.track.maxForward > 0.0 && cfg.track.maxYawRate > 0.0 && cfg.track.yawAlignPx > 0.0
    ensures var centred := ForwardSpeed(cfg, last.(xPx := 0.0), true);
            var beyond := last.distance - cfg.track.stopDistance; var width := cfg.track.yawAlignPx;
            && (0.0 <= beyond && beyond * 0.5 <= cfg.track.maxForward ==> centred == beyond * 0.5)
            && (Abs(last.xPx) <= width ==> ForwardSpeed(cfg, last, true) * width == centred * (width - Abs(last.xPx)))
    ensures Abs(last.xPx) * 0.006 <= cfg.track.maxYawRate ==> YawRate(cfg, last, true) == last.xPx * 0.006
  {
    var width, off := cfg.track.yawAlignPx, Abs(last.xPx);
    var speed := Min(cfg.track.maxForward, K_FORWARD * Max(0.0, last.distance - cfg.track.stopDistance));
    Ratio(off, width);
    Ratio(0.0, width);
    BackToWhole(off, width);
    if off <= width {
      ShareOf(off, width);
      Tapered(speed, off / width, off, width);
    }
  }

  lemma ShareOf(a: real, b: real)
    requires 0.0 <= a <= b && b > 0.0
    ensures 0.0 <= a / b <= 1.0
  {
    Quotient(a, b, b);
  }

  lemma Tapered(speed: real, share: real, off: real, width: real)
    requires width * share == off
    ensures speed * (1.0 - share) * width == speed * (width - off)
  {
    assert (1.0 - share) * width == width - off;
  }

  lemma Ratio(a: real, b: real)
    requires a >= 0.0 && b > 0.0
    ensures (a / b < 1.0 <==> a < b) && a / b >= 0.0 && (a == 0.0 ==> a / b == 0.0)
  {
    var q := a / b;
    BackToWhole(a, b);
    if q < 1.0 {
      Times(q, 1.0, b);
      BelowTimes(q, 1.0, b);
    } else {
      Times(1.0, q, b);
    }
  }

  lemma BackToWhole(a: real, b: real)
    requires b > 0.0
    ensures b * (a / b) == a && (a >= 0.0 ==> a / b >= 0.0)
  {
  }

  lemma BelowTimes(a: real, b: real, c: real)
    requires a < b && c > 0.0
    ensures c * a < c * b
  {
  }

  lemma PositiveProduct(a: real, b: real)
    requires a >= 0.0 && b >= 0.0
    ensures a * b > 0.0 <==> a > 0.0 && b > 0.0
  {
  }

  /** At one distance, a target farther off centre is never approached faster. */
  lemma SpeedTapers(cfg: Config, near: RangeMsg, far: RangeMsg)
    requires cfg.track.maxForward >= 0.0 && cfg.track.yawAlignPx > 0.0
    requires near.distance == far.distance && Abs(near.xPx) <= Abs(far.xPx)
    ensures ForwardSpeed(cfg, far, true) <= ForwardSpeed(cfg, near, true)
  {
    hide Abs, Min, Max;
    Quotient(Abs(near.xPx), Abs(far.xPx), cfg.track.yawAlignPx);
    var a, b := Abs(near.xPx) / cfg.track.yawAlignPx, Abs(far.xPx) / cfg.track.yawAlignPx;
    assert Clamp(1.0 - b, 0.0, 1.0) <= Clamp(1.0 - a, 0.0, 1.0);
    hide Clamp;
    var speed := Min(cfg.track.maxForward, K_FORWARD * Max(0.0, near.distance - cfg.track.stopDistance));
    NotNegative(cfg.track.maxForward, near.distance - cfg.track.stopDistance);
    Times(Clamp(1.0 - b, 0.0, 1.0), Clamp(1.0 - a, 0.0, 1.0), speed);
  }

  lemma NotNegative(most: real, beyond: real)
    requires most >= 0.0
    ensures Min(most, K_FORWARD * Max(0.0, beyond)) >= 0.0
  {
  }

  lemma Quotient(a: real, b: real, c: real)
    requires a <= b && c > 0.0
    ensures a / c <= b / c
  {
  }

  lemma Times(a: real, b: real, c: real)
    requires a <= b && c >= 0.0
    ensures c * a <= c * b
  {
  }

  lemma SteerSpeeds(cfg: Config, start: real, s: Loop, t: Tick)
    requires Judge(cfg, start, s, t).1.Steer?
    ensures var v := Judge(cfg, start, s, t).1; var h := Heard(cfg, s, t);
            && v.vx == ForwardSpeed(cfg, h.last, Tracking(cfg, h, t.now))
            && v.yawRate == YawRate(cfg, h.last, Tracking(cfg, h, t.now))
  {
    hide Heard, Emergencies, Vertical, ForwardSpeed, YawRate, Tracking;
  }

  lemma MovesOnlyTracking(cfg: Config, last: RangeMsg)
    ensures ForwardSpeed(cfg, last, false) == 0.0 && YawRate(cfg, last, false) == 0.0
  {
  }

  /** A setpoint that moves or turns is sent only while the newest message is fresh, valid
      and found, whatever the settings. */
  lemma MovesOnlyWhenTracked(r: Sortie, n: nat)
    requires SteersAt(r, n) && (Judged(r, n).1.vx != 0.0 || Judged(r, n).1.yawRate != 0.0)
    ensures Tracked(r.cfg, r.start, Upto(r, n))
  {
    hide Judge, Run, Heard, ForwardSpeed, YawRate, Tracking, Tracked, LinkFresh, FreshAt;
    SteerSpeeds(r.cfg, r.start, Before(r, n), r.ticks[n]);
    LinkIsFresh(r, n);
    MovesOnlyTracking(r.cfg, HeardAt(r, n).last);
  }

  /** On every run, a setpoint that moves or turns is sent while the newest message is
      fresh, valid and found; and every setpoint is within the limits. */
  lemma SetpointBounded(r: Sortie, n: nat)
    requires SteersAt(r, n) && r.cfg.track.maxForward >= 0.0
    ensures var v := Judged(r, n).1; var track := r.cfg.track; var newest := NewestRange(Upto(r, n));
            && 0.0 <= v.vx <= track.maxForward && -(track.maxYawRate as real) <= v.yawRate <= track.maxYawRate
            && (v.vx != 0.0 || v.yawRate != 0.0 ==> Tracked(r.cfg, r.start, Upto(r, n)))
            && (newest.distance <= track.stopDistance ==> v.vx == 0.0)
            && (Abs(newest.xPx) >= track.yawAlignPx > 0.0 ==> v.vx == 0.0)
  {
    hide Judge, Run, Heard, ForwardSpeed, YawRate, Tracking, Tracked, Abs, LinkFresh, FreshAt;
    SteerSpeeds(r.cfg, r.start, Before(r, n), r.ticks[n]);
    HeardIsHistory(r, n);
    LinkIsFresh(r, n);
    SpeedsBounded(r.cfg, NewestRange(Upto(r, n)), Tracked(r.cfg, r.start, Upto(r, n)));
  }

  // ---------- When the loop ends

  /** The last tick of p is a disarmed heartbeat and the one before it was armed. */
  predicate DisarmSeen(p: seq<Tick>)
    requires p != []
  {
    IsHeartbeat(Last(p)) && !Last(p).telemetry.value.armed && LastArmed(Front(p)) == Some(true)
  }

  predicate MustEnd(cfg: Config, start: real, p: seq<Tick>)
    requires p != []
  {
    || DisarmSeen(p)
    || Last(p).now - LastHeartbeat(start, p) > cfg.health.landGap
    || Last(p).now - LastTracked(cfg, start, p) > cfg.track.targetLostLandSec
  }

  lemma DecideEnds(cfg: Config, s: Loop, now: real)
    ensures Ends(Decide(cfg, s, now).1) <==>
            now - s.health.lastHeartbeat > cfg.health.landGap || now - s.targetLostSince > cfg.track.targetLostLandSec
    ensures !Decide(cfg, s, now).1.TimeUp?
  {
    hide Emergencies, Vertical, Tracking, ForwardSpeed, YawRate;
    assert Steering(cfg, s, now).1.Steer?;
  }

  /** A tick ends the loop exactly when time is up, an armed vehicle reports itself
      disarmed, heartbeats stopped for longer than landGap, or the target was lost for
      longer than targetLostLandSec; only the first ends it without LAND. */
  lemma EndsExactly(r: Sortie, n: nat)
    requires FlyingAt(r, n) && n < |r.ticks|
    ensures var up := TimeIsUp(r.cfg, r.start, r.ticks[n].now);
            && (FlyingAt(r, n + 1) <==> !up && !MustEnd(r.cfg, r.start, Upto(r, n)))
            && (Judged(r, n).1.TimeUp? <==> up)
  {
    hide Run, Heard, Decide, LastTracked, LastHeartbeat, HealthAfter, NewestRange, NewestRangeTime, EverAltitude, LastArmed;
    FlyingStep(r, n);
    VariablesAreHistory(r, n);
    HeardIsHistory(r, n);
    DecideEnds(r.cfg, HeardAt(r, n), r.ticks[n].now);
    assert Front(Upto(r, n)) == r.ticks[..n];
    ArmedIsHistory(r.start, r.ticks[..n]);
    HeartbeatIsHistory(r.start, Upto(r, n));
  }

  /** Ticks at least a cycle apart, the first not before the start. */
  predicate Paced(r: Sortie, cycle: real) {
    && (|r.ticks| > 0 ==> r.ticks[0].now >= r.start)
    && forall i :: 0 < i < |r.ticks| ==> r.ticks[i].now >= r.ticks[i - 1].now + cycle
  }

  lemma {:induction false} PacedElapsed(r: Sortie, cycle: real, n: nat)
    requires Paced(r, cycle) && n < |r.ticks|
    ensures r.ticks[n].now - r.start >= n as real * cycle
  {
    if n > 0 {
      PacedElapsed(r, cycle, n - 1);
      OneMore(n, cycle);
    }
  }

  lemma OneMore(n: nat, cycle: real)
    requires n > 0
    ensures n as real * cycle == (n - 1) as real * cycle + cycle
  {
    var m := (n - 1) as real;
    assert n as real == m + 1.0;
    assert (m + 1.0) * cycle == m * cycle + cycle;
  }

  /** The least whole number not below x. */
  function Ceil(x: real): (c: int)
    ensures x <= c as real < x + 1.0
  {
    -((-x).Floor)
  }

  /** With a positive duration and cycle, the loop runs at most ceil(duration / cycle) + 1
      ticks. */
  lemma EndsInTime(r: Sortie, cycle: real)
    requires r.cfg.track.durationSec > 0.0 && cycle > 0.0 && Paced(r, cycle)
    requires |r.ticks| >= Ceil(r.cfg.track.durationSec / cycle) + 1
    ensures Run(r.cfg, r.start, r.ticks).status.Ended?
  {
    hide Run;
    var n := Ceil(r.cfg.track.durationSec / cycle);
    CeilTimes(r.cfg.track.durationSec, cycle);
    PacedElapsed(r, cycle, n);
    assert TimeIsUp(r.cfg, r.start, r.ticks[n].now);
    if FlyingAt(r, |r.ticks|) {
      FlyingBefore(r, n + 1, |r.ticks|);
      FlyingBefore(r, n, |r.ticks|);
      EndsExactly(r, n);
    }
    assert r.ticks[..|r.ticks|] == r.ticks;
  }

  lemma CeilTimes(d: real, cycle: real)
    requires d > 0.0 && cycle > 0.0
    ensures Ceil(d / cycle) >= 0 && Ceil(d / cycle) as real * cycle >= d
  {
    var n := Ceil(d / cycle);
    assert d / cycle >= 0.0;
    assert (d / cycle) * cycle == d;
    assert n as real * cycle >= (d / cycle) * cycle by { Times(d / cycle, n as real, cycle); }
  }

  // ---------- What is on the wire

  /** Command c is the setpoint of tick n. */
  predicate SetpointOf(r: Sortie, n: nat, c: Command) {
    SteersAt(r, n) && var v := Judged(r, n).1; c == Velocity(v.vx, 0.0, v.vz, v.yawRate)
  }

  /** Command k is the zero setpoint that closes a finished run. */
  predicate ClosesRun(f: Flight, k: nat) {
    f.status.Ended? && k == |f.trace| - 1 && f.trace[k] == ZERO_VELOCITY
  }

  lemma SteersLater(r: Sortie, more: Sortie, n: nat, c: Command)
    requires more.cfg == r.cfg && more.start == r.start && r.ticks <= more.ticks
    requires SetpointOf(r, n, c)
    ensures SetpointOf(more, n, c)
  {
    hide Run, Judge;
    assert more.ticks[..n] == r.ticks[..n];
  }

  lemma SentVelocity(v: Verdict, inLoiter: bool, k: nat)
    requires k < |Commands(v, inLoiter)| && Commands(v, inLoiter)[k].Velocity?
    ensures v.Steer? && Commands(v, inLoiter)[k] == Velocity(v.vx, 0.0, v.vz, v.yawRate)
  {
  }

  /** Every setpoint in the trace is that of some steering tick, sideways speed zero, or the
      zero setpoint that closes the run. */
  lemma {:induction false} SetpointOrigin(r: Sortie, k: nat)
    requires var f := Run(r.cfg, r.start, r.ticks); k < |f.trace| && f.trace[k].Velocity?
    ensures var f := Run(r.cfg, r.start, r.ticks);
            ClosesRun(f, k) || exists n :: SetpointOf(r, n, f.trace[k])
    decreases |r.ticks|
  {
    if r.ticks != [] {
      hide Judge, Commands, SetpointOf;
      var m := |r.ticks| - 1;
      var before := Sortie(r.cfg, r.start, r.ticks[..m]);
      var f0, f := Run(r.cfg, r.start, before.ticks), Run(r.cfg, r.start, r.ticks);
      if k < |f0.trace| {
        assert f0.trace[k] == f.trace[k];
        SetpointOrigin(before, k);
        if !ClosesRun(f0, k) {
          var n :| SetpointOf(before, n, f0.trace[k]);
          SteersLater(before, r, n, f0.trace[k]);
        }
      } else {
        NewSetpoint(r, m, k);
      }
    }
  }

  /** A setpoint that the last tick added. */
  lemma NewSetpoint(r: Sortie, m: nat, k: nat)
    requires |r.ticks| == m + 1
    requires var f := Run(r.cfg, r.start, r.ticks);
             |Run(r.cfg, r.start, r.ticks[..m]).trace| <= k < |f.trace| && f.trace[k].Velocity?
    ensures var f := Run(r.cfg, r.start, r.ticks); ClosesRun(f, k) || SetpointOf(r, m, f.trace[k])
  {
    hide Judge, Commands;
    var f0, f := Run(r.cfg, r.start, r.ticks[..m]), Run(r.cfg, r.start, r.ticks);
    assert f == StepFlight(r.cfg, r.start, f0, r.ticks[m]);
    assert f0.status.Flying?;
    hide Run;
    var s := f0.status.loop;
    var v := Judged(r, m).1;
    var added := k - |f0.trace|;
    if added < |Commands(v, s.inLoiter)| {
      SentVelocity(v, s.inLoiter, added);
    }
  }

  ghost predicate Holds(r: Sortie, n: nat) {
    exists m: nat :: HoldingFrom(r, m, n)
  }

  /** MAIN: what each tick puts on the wire, by the history: LOITER when an emergency begins,
      the setpoint of a tick that steers and GUIDED before it when the loop was holding, LAND
      and the zero setpoint when a watchdog ends the loop, only the zero setpoint when time is
      up, and nothing while it waits. */
  lemma TickSends(r: Sortie, n: nat)
    requires FlyingAt(r, n) && n < |r.ticks|
    ensures var up := TimeIsUp(r.cfg, r.start, r.ticks[n].now); var v := Judged(r, n).1;
            Run(r.cfg, r.start, r.ticks[..n + 1]).trace == Run(r.cfg, r.start, r.ticks[..n]).trace +
              if up then [Velocity(0.0, 0.0, 0.0, 0.0)]
              else if MustEnd(r.cfg, r.start, Upto(r, n)) then [Land, Velocity(0.0, 0.0, 0.0, 0.0)]
              else if EmergencyAt(r, n) then (if Holds(r, n) then [] else [SetMode(LOITER)])
              else if SteersAt(r, n) then
                (if Holds(r, n) then [SetMode(GUIDED)] else []) + [Velocity(v.vx, 0.0, v.vz, v.yawRate)]
              else []
  {
    hide Run, Judge, MustEnd, HoldingFrom;
    RunStep(r.cfg, r.start, r.ticks, n);
    EndsExactly(r, n);
    FlyingStep(r, n);
    LoiterIsHistory(r, n);
    VerdictKinds(r.cfg, r.start, Before(r, n), r.ticks[n]);
    ReturningIs(r.cfg, r.start, Before(r, n), r.ticks[n]);
  }

  lemma ReturningIs(cfg: Config, start: real, s: Loop, t: Tick)
    ensures var v := Judge(cfg, start, s, t).1; v.Steer? ==> v.returning == s.inLoiter
  {
    hide Updated, Emergencies, Vertical, ForwardSpeed, YawRate, Tracking;
  }

  /** MAIN: every setpoint on the wire, bar the closing zero, was sent on a tick without
      breach, moves or turns only toward a fresh, valid, found target, has no sideways speed
      and stays within the limits. */
  lemma EverySetpoint(r: Sortie, k: nat)
    requires var f := Run(r.cfg, r.start, r.ticks);
             k < |f.trace| && f.trace[k].Velocity? && !ClosesRun(f, k)
    requires r.cfg.track.maxForward >= 0.0
    ensures exists n :: Justified(r, n, Run(r.cfg, r.start, r.ticks).trace[k])
  {
    hide Run, SetpointOf, Correction;
    SetpointOrigin(r, k);
    var c := Run(r.cfg, r.start, r.ticks).trace[k];
    var n :| SetpointOf(r, n, c);
    SetpointJustified(r, n, c);
  }

  lemma SetpointJustified(r: Sortie, n: nat, c: Command)
    requires SetpointOf(r, n, c) && r.cfg.track.maxForward >= 0.0
    ensures Justified(r, n, c)
  {
    hide Judge, Run, Enforcing, Safe, Tracked, FreshAt;
    SetpointsAreSafe(r, n);
    SetpointBounded(r, n);
    DescendsExactly(r, n);
  }

  ghost predicate Justified(r: Sortie, n: nat, c: Command) {
    && n < |r.ticks| && Safe(r.cfg, r.start, Upto(r, n))
    && c.Velocity? && c.vy == 0.0 && 0.0 <= c.vx <= r.cfg.track.maxForward && Abs(c.yawRate) <= r.cfg.track.maxYawRate
    && (c.vx != 0.0 || c.yawRate != 0.0 ==> Tracked(r.cfg, r.start, Upto(r, n)))
    && if FreshAt(r, n) && Enforcing(r, n + 1) then Correction(r.cfg.alt, AltitudeAt(r, n), c.vz) else c.vz == 0.0
  }
}
