/** The grammar of the command trace of the loop, over every run. */
module FlightTrace {
  import opened FlightControl

  /** How many LOITER requests are not yet answered by a GUIDED. */
  function Open(trace: seq<Command>): int {
    if trace == [] then 0
    else Open(trace[..|trace| - 1]) + Weight(trace[|trace| - 1])
  }

  function Weight(c: Command): int {
    if c == SetMode(LOITER) then 1 else if c == SetMode(GUIDED) then -1 else 0
  }

  /** Command k is allowed after what precedes it. */
  predicate Allowed(trace: seq<Command>, k: nat)
    requires k < |trace|
  {
    var c := trace[k];
    || (c.Velocity? && Open(trace[..k]) == 0)
    || (c == SetMode(LOITER) && Open(trace[..k]) == 0)
    || (c == SetMode(GUIDED) && Open(trace[..k]) == 1)
  }

  /** Setpoints, and LOITER and GUIDED in strict alternation from LOITER, with no setpoint
      between a LOITER and its GUIDED. */
  predicate Grammatical(trace: seq<Command>) {
    forall k :: 0 <= k < |trace| ==> Allowed(trace, k)
  }

  lemma Appended(trace: seq<Command>, c: Command)
    requires Grammatical(trace)
    requires c.Velocity? || c == SetMode(LOITER) ==> Open(trace) == 0
    requires c == SetMode(GUIDED) ==> Open(trace) == 1
    requires c.Velocity? || c.SetMode?
    ensures Grammatical(trace + [c]) && Open(trace + [c]) == Open(trace) + Weight(c)
  {
    var more := trace + [c];
    assert more[..|trace|] == trace;
    assert c.SetMode? ==> c.mode == GUIDED || c.mode == LOITER;
    forall k | 0 <= k < |more| ensures Allowed(more, k) {
      if k < |trace| {
        assert Allowed(trace, k) && more[..k] == trace[..k];
      }
    }
  }

  predicate Balanced(trace: seq<Command>, inLoiter: bool) {
    Grammatical(trace) && Open(trace) == if inLoiter then 1 else 0
  }

  lemma SentKeeps(trace: seq<Command>, v: Verdict, was: bool, now: bool)
    requires Balanced(trace, was) && !Ends(v)
    requires v.Emergency? ==> now
    requires v.Holding? ==> was && now
    requires v.Steer? ==> !now && v.returning == was
    ensures Balanced(trace + Commands(v, was), now)
  {
    hide Grammatical, Open;
    match v
    case Emergency =>
      if was {
        assert trace + [] == trace;
      } else {
        Appended(trace, SetMode(LOITER));
      }
    case Holding =>
      assert trace + [] == trace;
    case Steer(returning, vx, vz, yawRate) =>
      var setpoint := Velocity(vx, 0.0, vz, yawRate);
      if was {
        Appended(trace, SetMode(GUIDED));
        Appended(trace + [SetMode(GUIDED)], setpoint);
        assert trace + ([SetMode(GUIDED)] + [setpoint]) == trace + [SetMode(GUIDED)] + [setpoint];
      } else {
        Appended(trace, setpoint);
        assert trace + ([] + [setpoint]) == trace + [setpoint];
      }
  }

  /** What the verdict says about the LOITER flag. */
  lemma VerdictFlag(cfg: Config, start: real, s: Loop, t: Tick)
    ensures var (s', v) := Judge(cfg, start, s, t);
            && (v.Emergency? ==> s'.inLoiter)
            && (v.Holding? ==> s.inLoiter && s'.inLoiter)
            && (v.Steer? ==> !s'.inLoiter && v.returning == s.inLoiter)
  {
    hide Emergencies, Vertical, ForwardSpeed, YawRate, Tracking, Updated;
  }

  /** The commands that close the loop: an early LAND unless time simply ran out, and
      always the zero setpoint last. */
  function Closing(v: Verdict): seq<Command> {
    (if v.TimeUp? then [] else [Land]) + [ZERO_VELOCITY]
  }

  /** A finished trace: a grammatical body, at most one LAND, the zero setpoint. */
  predicate Finished(trace: seq<Command>, v: Verdict, body: seq<Command>) {
    Grammatical(body) && trace == body + Closing(v)
  }

  ghost predicate TraceLaw(f: Flight) {
    if f.status.Flying? then Balanced(f.trace, f.status.loop.inLoiter)
    else Ends(f.status.how) && exists body :: Finished(f.trace, f.status.how, body)
  }

  lemma StepKeeps(cfg: Config, start: real, f: Flight, t: Tick)
    requires TraceLaw(f)
    ensures TraceLaw(StepFlight(cfg, start, f, t))
  {
    hide Judge, Grammatical, Open;
    if f.status.Flying? {
      var s := f.status.loop;
      var (s', v) := Judge(cfg, start, s, t);
      VerdictFlag(cfg, start, s, t);
      if Ends(v) {
        assert f.trace + Commands(v, s.inLoiter) + [ZERO_VELOCITY] == f.trace + Closing(v);
        assert Finished(f.trace + Closing(v), v, f.trace);
      } else {
        SentKeeps(f.trace, v, s.inLoiter, s'.inLoiter);
      }
    }
  }

  /** On every run the trace is grammatical while flying, and complete once ended. */
  lemma {:induction false} TraceIsGrammatical(cfg: Config, start: real, ticks: seq<Tick>)
    ensures TraceLaw(Run(cfg, start, ticks))
  {
    if ticks == [] {
      assert Grammatical([]) && Open([]) == 0;
    } else {
      hide StepFlight, TraceLaw;
      TraceIsGrammatical(cfg, start, ticks[..|ticks| - 1]);
      StepKeeps(cfg, start, Run(cfg, start, ticks[..|ticks| - 1]), ticks[|ticks| - 1]);
    }
  }
}
