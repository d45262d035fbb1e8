/** The sensing loop between detector and supervisor (control/target_distance.cpp:215-308):
    altitude freshness, the detection gate, outlier rejection and the published message. */
module Sensing {
  import opened Wrappers
  import opened Numbers
  import opened FlightControl
  import opened TargetJson
  import opened TargetBody

  datatype SenseConfig = SenseConfig(focalPx: NonZero, targetStaleMs: real, altitudeStaleMs: real, maxPlausible: real,
                                     maxJump: real)

  /** Two library functions: std::hypot, and std::stod with the finiteness test. */
  datatype Library = Library(hypot: (real, real) -> real, read: string -> Option<real>)

  /** A relative altitude and the clock when it was received. */
  datatype Altitude = Altitude(metres: real, time: real)

  /** One cycle: the altitude message if one came, the clock at the freshness test, and the
      body of the detector's response if the request succeeded. */
  datatype Cycle = Cycle(altitude: Option<Altitude>, now: real, body: Option<string>)

  datatype Sensor = Sensor(altitude: real, haveAltitude: bool, lastAltitudeTime: real, haveLast: bool,
                           lastAccepted: real)

  function InitialSensor(start: real): Sensor {
    Sensor(0.0, false, start, false, 0.0)
  }

  // ---------- Reading the response

  ghost function NumberIn(lib: Library, body: string, key: string): Option<real> {
    var token := NumberOf(FindTopLevel(body, key));
    if token.Some? then lib.read(token.value) else None
  }

  method ReadNumber(lib: Library, body: string, key: string) returns (r: Option<real>)
    ensures r == NumberIn(lib, body, key)
  {
    hide FindTopLevel;
    var token := JsonNumberToken(body, key);
    return if token.Some? then lib.read(token.value) else None;
  }

  ghost predicate Flagged(body: string, key: string) {
    BoolOf(FindTopLevel(body, key)) == Some(true)
  }

  /** Found, confirmed, and an age that is a number within the limit. */
  ghost predicate Admitted(cfg: SenseConfig, lib: Library, body: string) {
    && Flagged(body, "found") && Flagged(body, "confirmed")
    && NumberIn(lib, body, "age_ms").Some? && NumberIn(lib, body, "age_ms").value <= cfg.targetStaleMs
  }

  /** Both pixel offsets of an admitted response. */
  ghost predicate Placed(cfg: SenseConfig, lib: Library, c: Cycle) {
    && c.body.Some? && Admitted(cfg, lib, c.body.value)
    && NumberIn(lib, c.body.value, "x_px").Some? && NumberIn(lib, c.body.value, "y_px").Some?
  }

  /** The poll: the stored x offset (0 where the code stores NaN) and, if both offsets are
      numbers, their hypotenuse. */
  method PollTarget(cfg: SenseConfig, lib: Library, c: Cycle) returns (xPx: real, offset: Option<real>)
    ensures offset.Some? <==> Placed(cfg, lib, c)
    ensures xPx == StoredX(cfg, lib, c)
    ensures offset.Some? ==> offset.value == PixelOffset(lib, c)
  {
    hide FindTopLevel, NumberOf, NumberIn;
    xPx, offset := 0.0, None;
    if c.body.Some? {
      var body := c.body.value;
      var found := JsonBool(body, "found");
      var confirmed := JsonBool(body, "confirmed");
      var age := ReadNumber(lib, body, "age_ms");
      if found == Some(true) && confirmed == Some(true) && age.Some? && age.value <= cfg.targetStaleMs {
        var x := ReadNumber(lib, body, "x_px");
        var y := ReadNumber(lib, body, "y_px");
        if x.Some? {
          xPx := x.value;
          if y.Some? {
            offset := Some(lib.hypot(x.value, y.value));
          }
        }
      }
    }
  }

  ghost function StoredX(cfg: SenseConfig, lib: Library, c: Cycle): real {
    if c.body.Some? && Admitted(cfg, lib, c.body.value) && NumberIn(lib, c.body.value, "x_px").Some?
    then NumberIn(lib, c.body.value, "x_px").value else 0.0
  }

  ghost function PixelOffset(lib: Library, c: Cycle): real {
    if c.body.Some? && NumberIn(lib, c.body.value, "x_px").Some? && NumberIn(lib, c.body.value, "y_px").Some?
    then lib.hypot(NumberIn(lib, c.body.value, "x_px").value, NumberIn(lib, c.body.value, "y_px").value) else 0.0
  }

  // ---------- One cycle

  /** pixel_offset_to_ground_m (control/pos_calculator.cpp) */
  function GroundOffset(offset: real, altitude: real, focalPx: NonZero): real {
    offset / focalPx * altitude
  }

  /** The straight-line distance to the point at that offset. */
  function DistanceOver(cfg: SenseConfig, lib: Library, offset: real, altitude: real): real {
    lib.hypot(GroundOffset(offset, altitude, cfg.focalPx), altitude)
  }

  /** After the altitude message. */
  function Climbed(s: Sensor, c: Cycle): Sensor {
    if c.altitude.Some? then
      s.(altitude := c.altitude.value.metres, haveAltitude := true, lastAltitudeTime := c.altitude.value.time)
    else s
  }

  predicate AltitudeFresh(cfg: SenseConfig, s: Sensor, now: real) {
    s.haveAltitude && (now - s.lastAltitudeTime) * 1000.0 <= cfg.altitudeStaleMs
  }

  /** The reading is not an outlier. */
  predicate Accepts(cfg: SenseConfig, s: Sensor, distance: real) {
    distance <= cfg.maxPlausible && (s.haveLast ==> Abs(distance - s.lastAccepted) <= cfg.maxJump)
  }

  ghost function Reading(cfg: SenseConfig, lib: Library, s: Sensor, c: Cycle): real
  {
    DistanceOver(cfg, lib, PixelOffset(lib, c), Climbed(s, c).altitude)
  }

  ghost predicate Found(cfg: SenseConfig, lib: Library, s: Sensor, c: Cycle)
  {
    Placed(cfg, lib, c) && Accepts(cfg, s, Reading(cfg, lib, s, c))
  }

  /** The state after a cycle and the message it publishes. */
  ghost function Publish(cfg: SenseConfig, lib: Library, s: Sensor, c: Cycle): (Sensor, RangeMsg)
  {
    var s1 := Climbed(s, c);
    var recent := AltitudeFresh(cfg, s1, c.now);
    var found := Found(cfg, lib, s, c);
    var distance := Reading(cfg, lib, s, c);
    (if found then s1.(haveLast := true, lastAccepted := distance) else s1,
     RangeMsg(recent && found, found, recent, StoredX(cfg, lib, c), s1.altitude, if found then distance else 0.0))
  }

  /** Everything published over a sequence of cycles, and the state after them. */
  ghost function SenseAll(cfg: SenseConfig, lib: Library, start: real, cycles: seq<Cycle>): (r: (Sensor, seq<RangeMsg>))
    ensures |r.1| == |cycles|
  {
    if cycles == [] then (InitialSensor(start), [])
    else
      var before := SenseAll(cfg, lib, start, cycles[..|cycles| - 1]);
      var step := Publish(cfg, lib, before.0, cycles[|cycles| - 1]);
      (step.0, before.1 + [step.1])
  }

  /** The loop with its local variables, until the cycles run out. */
  method Sense(cfg: SenseConfig, lib: Library, start: real, cycles: seq<Cycle>) returns (sent: seq<RangeMsg>)
    ensures sent == SenseAll(cfg, lib, start, cycles).1
  {
    hide StoredX, Placed, PixelOffset, Abs;
    sent := [];
    var altitude, haveAltitude, lastAltitudeTime, haveLast, lastAccepted := 0.0, false, start, false, 0.0;
    for i := 0 to |cycles|
      invariant SenseAll(cfg, lib, start, cycles[..i])
        == (Sensor(altitude, haveAltitude, lastAltitudeTime, haveLast, lastAccepted), sent)
    {
      var c := cycles[i];
      ghost var before := Sensor(altitude, haveAltitude, lastAltitudeTime, haveLast, lastAccepted);
      assert cycles[..i + 1][..i] == cycles[..i];
      if c.altitude.Some? {
        altitude, haveAltitude, lastAltitudeTime := c.altitude.value.metres, true, c.altitude.value.time;
      }
      var altitudeFresh := haveAltitude && (c.now - lastAltitudeTime) * 1000.0 <= cfg.altitudeStaleMs;
      var xPx, offset := PollTarget(cfg, lib, c);
      var haveTarget, distance := offset.Some?, 0.0;
      if haveTarget {
        distance := DistanceOver(cfg, lib, offset.value, altitude);
        var plausible := distance <= cfg.maxPlausible;
        var jumpOk := !haveLast || Abs(distance - lastAccepted) <= cfg.maxJump;
        if !plausible || !jumpOk {
          haveTarget := false;
        } else {
          lastAccepted, haveLast := distance, true;
        }
      }
      var out := RangeMsg(altitudeFresh && haveTarget, haveTarget, altitudeFresh, xPx, altitude,
                          if haveTarget then distance else 0.0);
      sent := sent + [out];
      assert (Sensor(altitude, haveAltitude, lastAltitudeTime, haveLast, lastAccepted), out)
          == Publish(cfg, lib, before, c);
    }
    assert cycles[..|cycles|] == cycles;
  }

  // ---------- The state is history

  function NewestAltitude(p: seq<Cycle>): Option<Altitude> {
    if p == [] then None
    else if p[|p| - 1].altitude.Some? then p[|p| - 1].altitude
    else NewestAltitude(p[..|p| - 1])
  }

  /** The distance of the newest message that found a target. */
  function LastFound(sent: seq<RangeMsg>): Option<real> {
    if sent == [] then None
    else if sent[|sent| - 1].found then Some(sent[|sent| - 1].distance)
    else LastFound(sent[..|sent| - 1])
  }

  predicate SensorMatches(s: Sensor, a: Option<Altitude>, last: Option<real>) {
    && s.haveAltitude == a.Some? && (if a.Some? then s.altitude == a.value.metres else s.altitude == 0.0)
    && (a.Some? ==> s.lastAltitudeTime == a.value.time)
    && s.haveLast == last.Some? && (last.Some? ==> s.lastAccepted == last.value)
  }

  lemma {:induction false} SensorIsHistory(cfg: SenseConfig, lib: Library, start: real, cycles: seq<Cycle>)
    ensures var (s, sent) := SenseAll(cfg, lib, start, cycles);
            SensorMatches(s, NewestAltitude(cycles), LastFound(sent))
  {
    hide Found, Reading, StoredX, AltitudeFresh;
    if cycles != [] {
      SensorIsHistory(cfg, lib, start, cycles[..|cycles| - 1]);
      var before := SenseAll(cfg, lib, start, cycles[..|cycles| - 1]);
      var after := SenseAll(cfg, lib, start, cycles);
      assert after.1[..|after.1| - 1] == before.1;
    }
  }

  lemma {:induction false} SentPrefix(cfg: SenseConfig, lib: Library, start: real, cycles: seq<Cycle>, n: nat)
    requires n <= |cycles|
    ensures SenseAll(cfg, lib, start, cycles[..n]).1 == SenseAll(cfg, lib, start, cycles).1[..n]
    decreases |cycles|
  {
    hide Publish;
    if n == |cycles| {
      assert cycles[..n] == cycles;
    } else {
      var front := cycles[..|cycles| - 1];
      assert front[..n] == cycles[..n];
      SentPrefix(cfg, lib, start, front, n);
    }
  }

  // ---------- What each message says

  datatype Sensing = Sensing(cfg: SenseConfig, lib: Library, start: real, cycles: seq<Cycle>)

  ghost function Sent(x: Sensing): (sent: seq<RangeMsg>)
    ensures |sent| == |x.cycles|
  {
    SenseAll(x.cfg, x.lib, x.start, x.cycles).1
  }

  function MetresAt(x: Sensing, i: nat): real
    requires i < |x.cycles|
  {
    var a := NewestAltitude(x.cycles[..i + 1]);
    if a.Some? then a.value.metres else 0.0
  }

  /** The altitude of message i was received within the limit before cycle i's test. */
  predicate FreshAltitude(x: Sensing, i: nat)
    requires i < |x.cycles|
  {
    var a := NewestAltitude(x.cycles[..i + 1]);
    a.Some? && (x.cycles[i].now - a.value.time) * 1000.0 <= x.cfg.altitudeStaleMs
  }

  /** The distance cycle i computes from its offsets and the newest altitude. */
  ghost function DistanceAt(x: Sensing, i: nat): real
    requires i < |x.cycles|
  {
    DistanceOver(x.cfg, x.lib, PixelOffset(x.lib, x.cycles[i]), MetresAt(x, i))
  }

  predicate WithinJump(cfg: SenseConfig, last: Option<real>, distance: real) {
    last.Some? ==> Abs(distance - last.value) <= cfg.maxJump
  }

  /** Cycle i's reading is placed, plausible, and no jump from the last found distance. */
  ghost predicate GoodReading(x: Sensing, i: nat)
    requires i < |x.cycles|
  {
    && Placed(x.cfg, x.lib, x.cycles[i]) && DistanceAt(x, i) <= x.cfg.maxPlausible
    && WithinJump(x.cfg, LastFound(Sent(x)[..i]), DistanceAt(x, i))
  }

  lemma PublishIs(cfg: SenseConfig, lib: Library, s: Sensor, c: Cycle, a: Option<Altitude>, last: Option<real>)
    requires SensorMatches(s, a, last)
    ensures var m := Publish(cfg, lib, s, c).1;
            var newest := if c.altitude.Some? then c.altitude else a;
            var metres := if newest.Some? then newest.value.metres else 0.0;
            var distance := DistanceOver(cfg, lib, PixelOffset(lib, c), metres);
            && (m.altitudeValid <==> newest.Some? && (c.now - newest.value.time) * 1000.0 <= cfg.altitudeStaleMs)
            && (m.found <==> Placed(cfg, lib, c) && distance <= cfg.maxPlausible && WithinJump(cfg, last, distance))
            && (m.valid <==> m.found && m.altitudeValid)
            && (m.found ==> m.distance == distance) && m.altitude == metres
            && m.xPx == StoredX(cfg, lib, c)
  {
    hide DistanceOver, PixelOffset, Placed, StoredX, Abs;
  }

  /** Message i, exactly: altitude valid iff the newest altitude is recent enough; found iff
      the detector's response was admitted and placed and the distance is plausible and no
      jump from the last found one; valid iff both. */
  lemma MessageExactly(x: Sensing, i: nat)
    requires i < |x.cycles|
    ensures var m := Sent(x)[i];
            && (m.altitudeValid <==> FreshAltitude(x, i))
            && (m.found <==> GoodReading(x, i))
            && (m.valid <==> m.found && m.altitudeValid)
            && (m.found ==> m.distance == DistanceAt(x, i)) && m.altitude == MetresAt(x, i)
            && (Placed(x.cfg, x.lib, x.cycles[i]) ==> m.xPx == OffsetRead(x, i, "x_px"))
  {
    hide Sent, DistanceAt, FreshAltitude, GoodReading, MetresAt, Placed, PixelOffset, StoredX, OffsetRead;
    MessageIs(x, i);
    StoredIsRead(x, i);
  }

  lemma MessageIs(x: Sensing, i: nat)
    requires i < |x.cycles|
    ensures var m := Sent(x)[i];
            && (m.altitudeValid <==> FreshAltitude(x, i))
            && (m.found <==> GoodReading(x, i))
            && (m.valid <==> m.found && m.altitudeValid)
            && (m.found ==> m.distance == DistanceAt(x, i)) && m.altitude == MetresAt(x, i)
            && m.xPx == StoredX(x.cfg, x.lib, x.cycles[i])
  {
    hide Publish, DistanceOver, PixelOffset, Placed, WithinJump, StoredX;
    var p, q := x.cycles[..i], x.cycles[..i + 1];
    assert q[..i] == p;
    var before := SenseAll(x.cfg, x.lib, x.start, p);
    SensorIsHistory(x.cfg, x.lib, x.start, p);
    SentPrefix(x.cfg, x.lib, x.start, x.cycles, i);
    SentPrefix(x.cfg, x.lib, x.start, x.cycles, i + 1);
    assert Sent(x)[..i + 1][i] == Publish(x.cfg, x.lib, before.0, x.cycles[i]).1;
    PublishIs(x.cfg, x.lib, before.0, x.cycles[i], NewestAltitude(p), LastFound(Sent(x)[..i]));
  }

  /** The number under a key of cycle i's response. */
  ghost function OffsetRead(x: Sensing, i: nat, key: string): real
    requires i < |x.cycles|
  {
    var c := x.cycles[i];
    if c.body.Some? && NumberIn(x.lib, c.body.value, key).Some? then NumberIn(x.lib, c.body.value, key).value else 0.0
  }

  lemma StoredIsRead(x: Sensing, i: nat)
    requires i < |x.cycles|
    ensures var c := x.cycles[i];
            Placed(x.cfg, x.lib, c) ==>
              && StoredX(x.cfg, x.lib, c) == OffsetRead(x, i, "x_px")
              && PixelOffset(x.lib, c) == x.lib.hypot(OffsetRead(x, i, "x_px"), OffsetRead(x, i, "y_px"))
  {
    hide NumberIn, Admitted;
  }

  /** Cycle j's distance, if it was the newest found before cycle i, is within maxJump. */
  ghost predicate NoJump(x: Sensing, i: nat, j: nat, distance: real)
    requires j < i < |x.cycles|
  {
    Sent(x)[j].found && (forall k :: j < k < i ==> !Sent(x)[k].found)
    ==> Abs(distance - Sent(x)[j].distance) <= x.cfg.maxJump
  }

  lemma {:induction false} LastFoundIs(x: Sensing, i: nat, n: nat, distance: real)
    requires n <= i < |x.cycles| && forall k :: n <= k < i ==> !Sent(x)[k].found
    ensures WithinJump(x.cfg, LastFound(Sent(x)[..n]), distance) <==> forall j :: 0 <= j < n ==> NoJump(x, i, j, distance)
    decreases n
  {
    hide Sent, Abs;
    if n > 0 {
      var sent := Sent(x);
      assert sent[..n][..n - 1] == sent[..n - 1];
      if sent[n - 1].found {
        assert NoJump(x, i, n - 1, distance) <==> Abs(distance - sent[n - 1].distance) <= x.cfg.maxJump;
        forall j | 0 <= j < n - 1
          ensures NoJump(x, i, j, distance)
        {
        }
      } else {
        LastFoundIs(x, i, n - 1, distance);
        assert NoJump(x, i, n - 1, distance);
      }
    }
  }

  /** MAIN: when a message says found: the response said so, twice, with an age and two offsets
      that are numbers, the age within the limit, and the distance is plausible and no jump from
      the newest one found. */
  lemma FoundExactly(x: Sensing, i: nat)
    requires i < |x.cycles|
    ensures var c := x.cycles[i];
            Sent(x)[i].found <==>
              && c.body.Some? && FindTopLevel(c.body.value, "found") == Some("true")
              && FindTopLevel(c.body.value, "confirmed") == Some("true")
              && NumberIn(x.lib, c.body.value, "age_ms").Some?
              && NumberIn(x.lib, c.body.value, "age_ms").value <= x.cfg.targetStaleMs
              && NumberIn(x.lib, c.body.value, "x_px").Some? && NumberIn(x.lib, c.body.value, "y_px").Some?
              && DistanceAt(x, i) <= x.cfg.maxPlausible
              && forall j :: 0 <= j < i ==> NoJump(x, i, j, DistanceAt(x, i))
  {
    hide Sent, DistanceAt, FreshAltitude, MetresAt, NumberIn, FindTopLevel, NoJump, WithinJump, OffsetRead, PixelOffset;
    MessageIs(x, i);
    LastFoundIs(x, i, i, DistanceAt(x, i));
    if x.cycles[i].body.Some? {
      TrueText(FindTopLevel(x.cycles[i].body.value, "found"));
      TrueText(FindTopLevel(x.cycles[i].body.value, "confirmed"));
    }
  }

  lemma TrueText(text: Option<string>)
    ensures BoolOf(text) == Some(true) <==> text == Some("true")
  {
    assert "true"[0] != "false"[0];
  }

  // ---------- What the distance measures

  /** std::hypot is the hypotenuse. */
  ghost predicate Pythagoras(lib: Library) {
    forall a: real, b: real :: IsHypotenuse(lib.hypot(a, b), a, b)
  }

  predicate IsHypotenuse(h: real, a: real, b: real) {
    h >= 0.0 && h * h == a * a + b * b
  }

  /** MAIN: a found distance is that of a camera of this focal length looking down from the
      newest altitude: the altitude and the ground offset of the pixel, which is to the altitude
      as the pixel offset is to the focal length, are its two legs. */
  lemma DistanceIsGeometry(x: Sensing, i: nat)
    requires i < |x.cycles| && Pythagoras(x.lib) && Sent(x)[i].found
    ensures var m := Sent(x)[i]; var f := x.cfg.focalPx; var px, py := OffsetRead(x, i, "x_px"), OffsetRead(x, i, "y_px");
            && m.distance >= 0.0
            && (m.distance * f) * (m.distance * f) == m.altitude * m.altitude * (f * f + px * px + py * py)
  {
    hide *;
    FoundDistance(x, i);
    Geometry(x.cfg, x.lib, OffsetRead(x, i, "x_px"), OffsetRead(x, i, "y_px"), Sent(x)[i].altitude);
  }

  lemma FoundDistance(x: Sensing, i: nat)
    requires i < |x.cycles| && Sent(x)[i].found
    ensures var m := Sent(x)[i];
            var off := x.lib.hypot(OffsetRead(x, i, "x_px"), OffsetRead(x, i, "y_px"));
            m.distance == DistanceOver(x.cfg, x.lib, off, m.altitude)
  {
    hide Sent, OffsetRead, Placed, PixelOffset, MetresAt, FreshAltitude, DistanceOver, StoredX;
    MessageExactly(x, i);
    StoredIsRead(x, i);
  }

  lemma Geometry(cfg: SenseConfig, lib: Library, px: real, py: real, alt: real)
    requires Pythagoras(lib)
    ensures var d := DistanceOver(cfg, lib, lib.hypot(px, py), alt); var f := cfg.focalPx;
            d >= 0.0 && (d * f) * (d * f) == alt * alt * (f * f + px * px + py * py)
  {
    hide IsHypotenuse, DistanceOver, GroundOffset;
    var off := lib.hypot(px, py);
    var ground := GroundOffset(off, alt, cfg.focalPx);
    OverIs(cfg, lib, off, alt);
    assert IsHypotenuse(off, px, py) && IsHypotenuse(lib.hypot(ground, alt), ground, alt);
    GroundScales(off, cfg.focalPx, alt);
    Legs(lib.hypot(ground, alt), ground, alt, cfg.focalPx, off, px, py);
  }

  lemma OverIs(cfg: SenseConfig, lib: Library, offset: real, altitude: real)
    ensures DistanceOver(cfg, lib, offset, altitude) == lib.hypot(GroundOffset(offset, altitude, cfg.focalPx), altitude)
  {
    hide GroundOffset;
  }

  lemma GroundScales(off: real, f: NonZero, alt: real)
    ensures GroundOffset(off, alt, f) * f == off * alt
  {
    var q := off / f;
    assert q * f == off;
    assert q * alt * f == q * f * alt;
  }

  lemma Legs(d: real, ground: real, alt: real, f: real, off: real, px: real, py: real)
    requires IsHypotenuse(d, ground, alt) && IsHypotenuse(off, px, py) && ground * f == off * alt
    ensures d >= 0.0 && (d * f) * (d * f) == alt * alt * (f * f + px * px + py * py)
  {
    SquareOfProduct(d, f);
    SquareOfProduct(ground, f);
    SquareOfProduct(off, alt);
    Distribute(ground * ground, alt * alt, f * f);
    Distribute(f * f, off * off, alt * alt);
  }

  lemma SquareOfProduct(a: real, b: real)
    ensures (a * b) * (a * b) == (a * a) * (b * b)
  {
    assert (a * b) * (a * b) == a * (b * (a * b));
    assert b * (a * b) == a * (b * b);
    assert a * (a * (b * b)) == (a * a) * (b * b);
  }

  lemma Distribute(a: real, b: real, c: real)
    ensures (a + b) * c == a * c + b * c
  {
  }

  // ---------- Outliers

  /** Once a distance is accepted, the target is never found again exactly while every later
      reading is unplaced, implausible, or farther than maxJump from that one distance:
      the reference never moves by itself. */
  lemma {:induction false} LockedOut(x: Sensing, n: nat, m: nat, last: real)
    requires n <= m <= |x.cycles|
    requires LastFound(Sent(x)[..n]) == Some(last)
    ensures (forall i :: n <= i < m ==> !Sent(x)[i].found) <==> (forall i :: n <= i < m ==> Outlier(x, i, last))
    ensures (forall i :: n <= i < m ==> Outlier(x, i, last)) ==> LastFound(Sent(x)[..m]) == Some(last)
    decreases m
  {
    hide Placed, DistanceAt, Abs, Sent, OffsetRead;
    if n < m {
      LockedOut(x, n, m - 1, last);
      assert Sent(x)[..m][..m - 1] == Sent(x)[..m - 1];
      MessageExactly(x, m - 1);
      assert Outlier(x, m - 1, last) <==>
             !(Placed(x.cfg, x.lib, x.cycles[m - 1]) && DistanceAt(x, m - 1) <= x.cfg.maxPlausible
               && WithinJump(x.cfg, Some(last), DistanceAt(x, m - 1)));
    }
  }

  ghost predicate Outlier(x: Sensing, i: nat, last: real)
    requires i < |x.cycles|
  {
    || !Placed(x.cfg, x.lib, x.cycles[i])
    || DistanceAt(x, i) > x.cfg.maxPlausible
    || Abs(DistanceAt(x, i) - last) > x.cfg.maxJump
  }

  /** All that is assumed of std::hypot. */
  ghost predicate HypotLaw(lib: Library) {
    forall a: real, b: real :: lib.hypot(a, b) >= Abs(a) && lib.hypot(a, b) >= Abs(b)
  }

  /** A found distance is never less than the altitude it was computed from, so above
      maxPlausible metres no target is ever found. */
  lemma FoundAtLeastAltitude(x: Sensing, i: nat)
    requires i < |x.cycles| && HypotLaw(x.lib)
    ensures Sent(x)[i].found ==> Abs(Sent(x)[i].altitude) <= Sent(x)[i].distance <= x.cfg.maxPlausible
  {
    hide Placed, Sent, Abs;
    MessageExactly(x, i);
  }

  // ---------- A lock-out

  /** A confirmed target in the middle of the image, just seen. */
  const CENTRED := TargetInfo(true, true, "", "0", "0", "0", "1", false, "0", "0")

  lemma ZeroIsNumber()
    ensures Number("0") && Number("1")
  {
    assert "" + "0" + "" + "" == "0" && "" + "1" + "" + "" == "1";
    assert Minus("") && IntPart("0") && IntPart("1") && Fraction("") && Exponent("");
  }

  /** One cycle with this altitude and that target. */
  function Centred(metres: real): Cycle {
    Cycle(Some(Altitude(metres, 0.0)), 0.0, Some(TargetText(CENTRED)))
  }

  /** A 40 m reading, and then n readings of 4.5 m. */
  function SpikeThenTrue(cfg: SenseConfig, lib: Library, n: nat): Sensing {
    Sensing(cfg, lib, 0.0, [Centred(40.0)] + seq(n, i => Centred(4.5)))
  }

  /** The default limits: 50 m plausible, 5 m from one reading to the next. */
  predicate Usual(cfg: SenseConfig, lib: Library) {
    && cfg.maxPlausible == 50.0 && cfg.maxJump == 5.0 && cfg.targetStaleMs >= 0.0 && cfg.altitudeStaleMs >= 0.0
    && lib.read("0") == Some(0.0)
  }

  /** The hypotenuse over a leg of length zero is the other leg. */
  ghost predicate FlatLaw(lib: Library) {
    forall b: real :: lib.hypot(0.0, b) == Abs(b)
  }

  lemma CentredReads(cfg: SenseConfig, lib: Library, metres: real)
    requires Usual(cfg, lib) && FlatLaw(lib)
    ensures Placed(cfg, lib, Centred(metres)) && PixelOffset(lib, Centred(metres)) == 0.0
    ensures DistanceOver(cfg, lib, 0.0, metres) == Abs(metres)
  {
    hide FindTopLevel, TargetText, Number;
    ZeroIsNumber();
    ReadBack(CENTRED);
    assert 0.0 / cfg.focalPx == 0.0;
    assert "0" != "null" by { assert |"0"| != |"null"|; }
  }

  lemma SpikeCycle(cfg: SenseConfig, lib: Library, n: nat, i: nat)
    requires i <= n && Usual(cfg, lib) && FlatLaw(lib)
    ensures var x := SpikeThenTrue(cfg, lib, n);
            && Placed(cfg, lib, x.cycles[i]) && DistanceAt(x, i) == (if i == 0 then 40.0 else 4.5)
  {
    hide Placed, PixelOffset, DistanceOver, FlatLaw;
    var x := SpikeThenTrue(cfg, lib, n);
    assert x.cycles[..i + 1][i] == x.cycles[i];
    CentredReads(cfg, lib, if i == 0 then 40.0 else 4.5);
  }

  /** One outlier of 40 m, accepted because nothing came before it, is followed by any number
      of good readings of 4.5 m, each fresh, confirmed and plausible: none is ever found. */
  lemma SpikeLocksOut(cfg: SenseConfig, lib: Library, n: nat)
    requires Usual(cfg, lib) && FlatLaw(lib)
    ensures var x := SpikeThenTrue(cfg, lib, n);
            && Sent(x)[0].found
            && forall i :: 0 < i <= n ==> Placed(cfg, lib, x.cycles[i]) && DistanceAt(x, i) <= cfg.maxPlausible
                                          && !Sent(x)[i].found
  {
    hide Placed, DistanceAt, Sent, FlatLaw, Centred;
    var x := SpikeThenTrue(cfg, lib, n);
    SpikeCycle(cfg, lib, n, 0);
    MessageExactly(x, 0);
    assert Sent(x)[..0] == [];
    assert Sent(x)[0].found && Sent(x)[0].distance == 40.0;
    assert Sent(x)[..1] == [Sent(x)[0]];
    forall i | 0 < i <= n
      ensures Placed(cfg, lib, x.cycles[i]) && DistanceAt(x, i) == 4.5 && Outlier(x, i, 40.0)
    {
      SpikeCycle(cfg, lib, n, i);
    }
    LockedOut(x, 1, n + 1, 40.0);
  }

  // ---------- A lost altitude

  /** One altitude of 4.5 m and none after it, and in every cycle the centred target. */
  function AltitudeLost(cfg: SenseConfig, lib: Library, n: nat, period: real): Sensing {
    Sensing(cfg, lib, 0.0, seq(n + 1, i requires 0 <= i <= n => LostCycle(i, period)))
  }

  function LostCycle(i: nat, period: real): Cycle {
    Centred(4.5).(altitude := if i == 0 then Some(Altitude(4.5, 0.0)) else None, now := i as real * period)
  }

  lemma {:induction false} FirstAltitudeStays(cfg: SenseConfig, lib: Library, n: nat, period: real, i: nat)
    requires i <= n
    ensures NewestAltitude(AltitudeLost(cfg, lib, n, period).cycles[..i + 1]) == Some(Altitude(4.5, 0.0))
    decreases i
  {
    hide Centred;
    var cycles := AltitudeLost(cfg, lib, n, period).cycles;
    var upto := cycles[..i + 1];
    assert upto[i] == LostCycle(i, period) && upto[..i] == cycles[..i];
    if i > 0 {
      FirstAltitudeStays(cfg, lib, n, period, i - 1);
    }
  }

  lemma LostReading(cfg: SenseConfig, lib: Library, n: nat, period: real, i: nat)
    requires i <= n && Usual(cfg, lib) && FlatLaw(lib)
    ensures var x := AltitudeLost(cfg, lib, n, period);
            && Placed(cfg, lib, x.cycles[i]) && DistanceAt(x, i) == 4.5
            && (FreshAltitude(x, i) <==> i as real * period * 1000.0 <= cfg.altitudeStaleMs)
  {
    var x := AltitudeLost(cfg, lib, n, period);
    assert x.cycles[i] == LostCycle(i, period);
    CentredReads(cfg, lib, 4.5);
    SameBody(cfg, lib, Centred(4.5), LostCycle(i, period));
    hide Placed, PixelOffset, DistanceOver, FlatLaw;
    FirstAltitudeStays(cfg, lib, n, period, i);
  }

  lemma SameBody(cfg: SenseConfig, lib: Library, c: Cycle, d: Cycle)
    requires c.body == d.body
    ensures Placed(cfg, lib, c) == Placed(cfg, lib, d) && PixelOffset(lib, c) == PixelOffset(lib, d)
  {
    hide FindTopLevel, Number;
  }

  /** `found` does not need `valid`: after the altitude is lost every message still says found,
      and valid only until the altitude is stale. */
  lemma {:induction false} FoundWithoutValid(cfg: SenseConfig, lib: Library, n: nat, period: real, i: nat)
    requires i <= n && Usual(cfg, lib) && FlatLaw(lib)
    ensures var m := Sent(AltitudeLost(cfg, lib, n, period))[i];
            && m.found && m.distance == 4.5
            && (m.valid <==> i as real * period * 1000.0 <= cfg.altitudeStaleMs)
    decreases i
  {
    hide Placed, DistanceAt, Sent, FlatLaw, FreshAltitude, AltitudeLost;
    var x := AltitudeLost(cfg, lib, n, period);
    LostLength(cfg, lib, n, period);
    LostReading(cfg, lib, n, period, i);
    MessageExactly(x, i);
    if i > 0 {
      FoundWithoutValid(cfg, lib, n, period, i - 1);
      assert Sent(x)[..i][i - 1] == Sent(x)[i - 1];
    } else {
      assert Sent(x)[..0] == [];
    }
  }

  lemma LostLength(cfg: SenseConfig, lib: Library, n: nat, period: real)
    ensures var x := AltitudeLost(cfg, lib, n, period); |x.cycles| == n + 1 && x.cfg == cfg && x.lib == lib
  {
  }
}
