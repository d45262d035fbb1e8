/** The start-up waits and the command order of main (control/control.cpp:64-90, 738-764). */
module Mission {
  import opened Wrappers
  import opened FlightControl
  import opened FlightTrace

  datatype Beat = Beat(customMode: nat, armed: bool)

  /** One round of a wait: the clock, and the heartbeat received in it, if any. */
  datatype Poll = Poll(now: real, beat: Option<Beat>)

  /** The clock when a wait begins, and the rounds that follow. */
  datatype Wait = Wait(start: real, polls: seq<Poll>)

  /** What a wait is for: a mode switch, arming, or only that heartbeats keep coming. */
  datatype Need = GuidedMode | ArmedVehicle | Nothing

  const GUIDED_MODE := 4

  predicate IsReady(need: Need, b: Beat) {
    match need
    case GuidedMode => b.customMode == GUIDED_MODE
    case ArmedVehicle => b.armed
    case Nothing => false
  }

  /** Pending: the rounds ran out while still waiting. */
  datatype Outcome = Ready | Waited | TimedOut | Lost | Pending

  datatype Limits = Limits(timeout: real, maxGap: real, need: Need)

  // ---------- wait_for_heartbeat

  function WaitFrom(w: Wait, l: Limits, k: nat, lastBeat: real): (r: (Outcome, nat))
    requires k <= |w.polls|
    ensures r.1 <= |w.polls|
    decreases |w.polls| - k
  {
    if k == |w.polls| then (Pending, k)
    else
      var p := w.polls[k];
      if p.now - w.start >= l.timeout then (if l.need.Nothing? then Waited else TimedOut, k + 1)
      else if p.now - lastBeat > l.maxGap then (Lost, k + 1)
      else if p.beat.None? then WaitFrom(w, l, k + 1, lastBeat)
      else if IsReady(l.need, p.beat.value) then (Ready, k + 1)
      else WaitFrom(w, l, k + 1, p.now)
  }

  /** The outcome of a wait and how many rounds it took. */
  function WaitResult(w: Wait, l: Limits): (Outcome, nat) {
    WaitFrom(w, l, 0, w.start)
  }

  method WaitForHeartbeat(w: Wait, l: Limits) returns (outcome: Outcome, used: nat)
    ensures used <= |w.polls| && (outcome, used) == WaitResult(w, l)
  {
    var lastBeat := w.start;
    used := 0;
    while used < |w.polls|
      invariant used <= |w.polls|
      invariant WaitFrom(w, l, used, lastBeat) == WaitResult(w, l)
    {
      var p := w.polls[used];
      used := used + 1;
      if p.now - w.start >= l.timeout {
        if l.need.Nothing? {
          return Waited, used;
        }
        return TimedOut, used;
      }
      if p.now - lastBeat > l.maxGap {
        return Lost, used;
      }
      if p.beat.Some? {
        lastBeat := p.now;
        if IsReady(l.need, p.beat.value) {
          return Ready, used;
        }
      }
    }
    outcome := Pending;
  }

  /** The time of the last heartbeat among the first k rounds, or the start. */
  function LastBeat(w: Wait, k: nat): real
    requires k <= |w.polls|
  {
    if k == 0 then w.start else if w.polls[k - 1].beat.Some? then w.polls[k - 1].now else LastBeat(w, k - 1)
  }

  predicate InTime(w: Wait, l: Limits, k: nat)
    requires k < |w.polls|
  {
    w.polls[k].now - w.start < l.timeout
  }

  predicate Alive(w: Wait, l: Limits, k: nat)
    requires k < |w.polls|
  {
    w.polls[k].now - LastBeat(w, k) <= l.maxGap
  }

  predicate Shows(w: Wait, l: Limits, k: nat)
    requires k < |w.polls|
  {
    w.polls[k].beat.Some? && IsReady(l.need, w.polls[k].beat.value)
  }

  /** Round k neither ends nor satisfies the wait. */
  predicate Passes(w: Wait, l: Limits, k: nat)
    requires k < |w.polls|
  {
    InTime(w, l, k) && Alive(w, l, k) && !Shows(w, l, k)
  }

  /** The outcome that round k gives when the rounds before it pass. */
  predicate EndsWith(w: Wait, l: Limits, k: nat, outcome: Outcome)
    requires k < |w.polls|
  {
    match outcome
    case Ready => InTime(w, l, k) && Alive(w, l, k) && Shows(w, l, k)
    case Waited => !InTime(w, l, k) && l.need.Nothing?
    case TimedOut => !InTime(w, l, k) && !l.need.Nothing?
    case Lost => InTime(w, l, k) && !Alive(w, l, k)
    case Pending => false
  }

  /** A wait ends at the first round that is late, or too long after the last heartbeat,
      or brings the heartbeat waited for -- in this order -- and not before. */
  predicate WaitLaw(w: Wait, l: Limits, outcome: Outcome, used: nat) {
    && used <= |w.polls|
    && (outcome.Pending? ==> used == |w.polls| && forall k :: 0 <= k < used ==> Passes(w, l, k))
    && (!outcome.Pending? ==>
          0 < used && EndsWith(w, l, used - 1, outcome) && forall k :: 0 <= k < used - 1 ==> Passes(w, l, k))
  }

  lemma {:induction false} WaitFromLaw(w: Wait, l: Limits, k: nat)
    requires k <= |w.polls| && forall j :: 0 <= j < k ==> Passes(w, l, j)
    ensures var (outcome, used) := WaitFrom(w, l, k, LastBeat(w, k)); WaitLaw(w, l, outcome, used)
    decreases |w.polls| - k
  {
    if k < |w.polls| && Passes(w, l, k) {
      WaitFromLaw(w, l, k + 1);
    }
  }

  lemma WaitKeepsItsLaw(w: Wait, l: Limits)
    ensures WaitLaw(w, l, WaitResult(w, l).0, WaitResult(w, l).1)
  {
    hide WaitLaw, WaitFrom;
    WaitFromLaw(w, l, 0);
  }

  /** Round k ends the wait with this outcome, those before it pass. */
  predicate EndsAtRound(w: Wait, l: Limits, k: nat, outcome: Outcome) {
    k < |w.polls| && EndsWith(w, l, k, outcome) && forall j :: 0 <= j < k ==> Passes(w, l, j)
  }

  ghost predicate EndsIn(w: Wait, l: Limits, outcome: Outcome) {
    exists k: nat :: EndsAtRound(w, l, k, outcome)
  }

  /** The outcome of a wait, by the rounds it meets. */
  lemma OutcomeExactly(w: Wait, l: Limits, outcome: Outcome)
    requires !outcome.Pending?
    ensures WaitResult(w, l).0 == outcome <==> EndsIn(w, l, outcome)
  {
    hide WaitFrom, EndsWith, WaitResult;
    WaitKeepsItsLaw(w, l);
    var (found, used) := WaitResult(w, l);
    if !found.Pending? {
      assert EndsAtRound(w, l, used - 1, found);
    }
    if EndsIn(w, l, outcome) {
      var k: nat :| EndsAtRound(w, l, k, outcome);
      NeverBoth(w, l, k, outcome);
      if !found.Pending? {
        NeverBoth(w, l, used - 1, found);
        OneOutcome(w, l, k, outcome, found);
      }
    }
  }

  lemma NeverBoth(w: Wait, l: Limits, k: nat, outcome: Outcome)
    requires k < |w.polls| && EndsWith(w, l, k, outcome)
    ensures !Passes(w, l, k)
  {
  }

  lemma OneOutcome(w: Wait, l: Limits, k: nat, outcome: Outcome, other: Outcome)
    requires k < |w.polls| && EndsWith(w, l, k, outcome)
    ensures EndsWith(w, l, k, other) ==> outcome == other
  {
  }

  // ---------- main

  /** What passes between this program and the vehicle. */
  datatype Event = Sent(command: Command) | Received(beat: Beat)

  datatype End = Aborted | Landed | Unfinished

  /** Everything main reads: three waits and the ticks of the approach. */
  datatype Inputs = Inputs(guided: Wait, armed: Wait, climb: Wait, start: real, ticks: seq<Tick>)

  const SYS_STATUS := 1
  const GPS_RAW_INT := 24
  const EKF_STATUS_REPORT := 193
  const REQUESTS := [RequestInterval(SYS_STATUS), RequestInterval(GPS_RAW_INT), RequestInterval(EKF_STATUS_REPORT)]

  function Receipts(polls: seq<Poll>): seq<Event> {
    if polls == [] then []
    else Receipts(polls[..|polls| - 1])
         + if polls[|polls| - 1].beat.Some? then [Received(polls[|polls| - 1].beat.value)] else []
  }

  function Sends(commands: seq<Command>): (log: seq<Event>)
    ensures |log| == |commands| && forall i :: 0 <= i < |log| ==> log[i] == Sent(commands[i])
  {
    seq(|commands|, i requires 0 <= i < |commands| => Sent(commands[i]))
  }

  function ForMode(cfg: Config): Limits { Limits(5.0, cfg.health.maxHeartbeatGap, GuidedMode) }

  function ForArming(cfg: Config): Limits { Limits(5.0, cfg.health.maxHeartbeatGap, ArmedVehicle) }

  function ForClimb(cfg: Config): Limits { Limits(10.0, cfg.health.maxHeartbeatGap, Nothing) }

  /** A command and the heartbeats received while waiting for its effect. */
  function Exchange(c: Command, w: Wait, l: Limits): seq<Event> {
    [Sent(c)] + Receipts(w.polls[..WaitResult(w, l).1])
  }

  function EndOf(o: Outcome): End {
    if o.Pending? then Unfinished else Aborted
  }

  function ModeLog(cfg: Config, x: Inputs): seq<Event> {
    Exchange(SetMode(GUIDED), x.guided, ForMode(cfg))
  }

  function ArmLog(cfg: Config, x: Inputs): seq<Event> {
    ModeLog(cfg, x) + Exchange(Arm, x.armed, ForArming(cfg))
  }

  function ClimbLog(cfg: Config, x: Inputs): seq<Event> {
    ArmLog(cfg, x) + Exchange(Takeoff(TAKEOFF_ALTITUDE), x.climb, ForClimb(cfg))
  }

  function ApproachLog(cfg: Config, x: Inputs): seq<Event>
  {
    ClimbLog(cfg, x) + Sends(REQUESTS) + Sends(Run(cfg, x.start, x.ticks).trace)
  }

  /** The log of main and how it ends. */
  function Fly(cfg: Config, x: Inputs): (seq<Event>, End)
  {
    var mode := WaitResult(x.guided, ForMode(cfg)).0;
    var armed := WaitResult(x.armed, ForArming(cfg)).0;
    var climbed := WaitResult(x.climb, ForClimb(cfg)).0;
    if !mode.Ready? then (ModeLog(cfg, x), EndOf(mode))
    else if !armed.Ready? then (ArmLog(cfg, x), EndOf(armed))
    else if !climbed.Waited? then (ClimbLog(cfg, x), EndOf(climbed))
    else if Run(cfg, x.start, x.ticks).status.Flying? then (ApproachLog(cfg, x), Unfinished)
    else (ApproachLog(cfg, x) + [Sent(Land)], Landed)
  }

  method FlyMission(cfg: Config, x: Inputs) returns (log: seq<Event>, end: End)
    ensures (log, end) == Fly(cfg, x)
  {
    hide WaitResult, Run, Receipts;
    log := [Sent(SetMode(GUIDED))];
    var outcome, used := WaitForHeartbeat(x.guided, ForMode(cfg));
    log := log + Receipts(x.guided.polls[..used]);
    if !outcome.Ready? {
      return log, EndOf(outcome);
    }
    ghost var log1 := log;
    log := log + [Sent(Arm)];
    outcome, used := WaitForHeartbeat(x.armed, ForArming(cfg));
    log := log + Receipts(x.armed.polls[..used]);
    assert log == log1 + Exchange(Arm, x.armed, ForArming(cfg));
    if !outcome.Ready? {
      return log, EndOf(outcome);
    }
    ghost var log2 := log;
    log := log + [Sent(Takeoff(TAKEOFF_ALTITUDE))];
    outcome, used := WaitForHeartbeat(x.climb, ForClimb(cfg));
    log := log + Receipts(x.climb.polls[..used]);
    assert log == log2 + Exchange(Takeoff(TAKEOFF_ALTITUDE), x.climb, ForClimb(cfg));
    if !outcome.Waited? {
      return log, EndOf(outcome);
    }
    log := log + Sends(REQUESTS);
    var trace, exited := ApproachTarget(cfg, x.start, x.ticks);
    log := log + Sends(trace);
    if !exited {
      return log, Unfinished;
    }
    return log + [Sent(Land)], Landed;
  }

  // ---------- The order of commands

  /** The commands of a log, in order. */
  function Orders(log: seq<Event>): seq<Command> {
    if log == [] then []
    else Orders(log[..|log| - 1]) + if log[|log| - 1].Sent? then [log[|log| - 1].command] else []
  }

  lemma {:induction false} OrdersJoin(a: seq<Event>, b: seq<Event>)
    ensures Orders(a + b) == Orders(a) + Orders(b)
    decreases |b|
  {
    if b == [] {
      assert a + b == a;
    } else {
      var front := b[..|b| - 1];
      OrdersJoin(a, front);
      assert (a + b)[..|a + b| - 1] == a + front;
    }
  }

  lemma {:induction false} OrdersOfSends(commands: seq<Command>)
    ensures Orders(Sends(commands)) == commands
  {
    if commands == [] {
      assert Sends(commands) == [];
    } else {
      var front := commands[..|commands| - 1];
      OrdersOfSends(front);
      assert Sends(commands)[..|commands| - 1] == Sends(front);
      assert commands == front + [commands[|commands| - 1]];
    }
  }

  lemma {:induction false} OrdersOfReceipts(polls: seq<Poll>)
    ensures Orders(Receipts(polls)) == []
  {
    if polls != [] {
      var front, p := polls[..|polls| - 1], polls[|polls| - 1];
      OrdersOfReceipts(front);
      OrdersJoin(Receipts(front), if p.beat.Some? then [Received(p.beat.value)] else []);
    }
  }

  lemma OrdersOfExchange(log: seq<Event>, c: Command, w: Wait, l: Limits)
    ensures Orders(log + Exchange(c, w, l)) == Orders(log) + [c]
  {
    var receipts := Receipts(w.polls[..WaitResult(w, l).1]);
    OrdersOfReceipts(w.polls[..WaitResult(w, l).1]);
    hide Receipts, WaitResult;
    assert Orders([Sent(c)]) == [c];
    OrdersJoin([Sent(c)], receipts);
    OrdersJoin(log, Exchange(c, w, l));
  }

  const STARTUP := [SetMode(GUIDED), Arm, Takeoff(TAKEOFF_ALTITUDE)]

  /** How far main got: the number of start-up commands it sent, and whether the approach
      began. */
  function Reached(cfg: Config, x: Inputs): (nat, bool) {
    if !WaitResult(x.guided, ForMode(cfg)).0.Ready? then (1, false)
    else if !WaitResult(x.armed, ForArming(cfg)).0.Ready? then (2, false)
    else (3, WaitResult(x.climb, ForClimb(cfg)).0.Waited?)
  }

  /** The commands after start-up. */
  function Approach(cfg: Config, x: Inputs): seq<Command>
  {
    var f := Run(cfg, x.start, x.ticks);
    if !Reached(cfg, x).1 then []
    else REQUESTS + f.trace + if f.status.Ended? then [Land] else []
  }

  lemma OrdersOfFly(cfg: Config, x: Inputs)
    ensures Reached(cfg, x).0 <= 3 && (Reached(cfg, x).1 ==> Reached(cfg, x).0 == 3)
    ensures Orders(Fly(cfg, x).0) == STARTUP[..Reached(cfg, x).0] + Approach(cfg, x)
    ensures Fly(cfg, x).1.Landed? <==> Reached(cfg, x).1 && Run(cfg, x.start, x.ticks).status.Ended?
    ensures Fly(cfg, x).1.Aborted? ==> !Reached(cfg, x).1
  {
    hide Run, WaitResult, Orders, ModeLog, ArmLog, ClimbLog, ApproachLog;
    OrdersOfStartup(cfg, x);
    OrdersOfApproach(cfg, x);
    OrdersJoin(ApproachLog(cfg, x), [Sent(Land)]);
    OrdersOfOne(Land);
    StartupPrefixes();
  }

  lemma OrdersOfOne(c: Command)
    ensures Orders([Sent(c)]) == [c]
  {
    assert Orders([]) == [];
  }

  lemma StartupPrefixes()
    ensures STARTUP[..1] == [SetMode(GUIDED)] && STARTUP[..2] == [SetMode(GUIDED), Arm]
    ensures STARTUP[..3] == [SetMode(GUIDED), Arm, Takeoff(TAKEOFF_ALTITUDE)]
  {
  }

  lemma OrdersOfStartup(cfg: Config, x: Inputs)
    ensures Orders(ModeLog(cfg, x)) == [SetMode(GUIDED)]
    ensures Orders(ArmLog(cfg, x)) == [SetMode(GUIDED), Arm]
    ensures Orders(ClimbLog(cfg, x)) == [SetMode(GUIDED), Arm, Takeoff(TAKEOFF_ALTITUDE)]
  {
    hide Exchange, WaitResult;
    assert [] + ModeLog(cfg, x) == ModeLog(cfg, x);
    assert Orders([]) == [];
    hide Orders;
    OrdersOfExchange([], SetMode(GUIDED), x.guided, ForMode(cfg));
    OrdersOfExchange(ModeLog(cfg, x), Arm, x.armed, ForArming(cfg));
    OrdersOfExchange(ArmLog(cfg, x), Takeoff(TAKEOFF_ALTITUDE), x.climb, ForClimb(cfg));
  }

  lemma OrdersOfApproach(cfg: Config, x: Inputs)
    ensures Orders(ApproachLog(cfg, x))
         == [SetMode(GUIDED), Arm, Takeoff(TAKEOFF_ALTITUDE)] + REQUESTS + Run(cfg, x.start, x.ticks).trace
  {
    hide Run, ModeLog, ArmLog, ClimbLog, Orders;
    OrdersOfStartup(cfg, x);
    OrdersJoin(ClimbLog(cfg, x), Sends(REQUESTS));
    OrdersOfSends(REQUESTS);
    var trace := Run(cfg, x.start, x.ticks).trace;
    OrdersJoin(ClimbLog(cfg, x) + Sends(REQUESTS), Sends(trace));
    OrdersOfSends(trace);
  }

  predicate CompleteOrders(orders: seq<Command>, v: Verdict, body: seq<Command>) {
    && Ends(v) && Grammatical(body)
    && orders == [SetMode(GUIDED), Arm, Takeoff(4.5), RequestInterval(1), RequestInterval(24), RequestInterval(193)]
                 + body + Closing(v) + [Land]
  }

  lemma GrammaticalHas(trace: seq<Command>)
    requires Grammatical(trace)
    ensures Land !in trace && forall h :: Takeoff(h) !in trace
  {
    hide Open;
    forall k | 0 <= k < |trace| ensures trace[k].Velocity? || trace[k].SetMode? {
      assert Allowed(trace, k);
    }
  }

  /** A mission that reaches its end sent exactly: GUIDED, ARM, TAKEOFF, the three interval
      requests, a grammatical body, at most one early LAND, zero velocity, LAND. */
  lemma CompleteMission(cfg: Config, x: Inputs)
    requires Fly(cfg, x).1.Landed?
    ensures exists v, body :: CompleteOrders(Orders(Fly(cfg, x).0), v, body)
  {
    hide Run, Fly, Orders, Grammatical, Closing;
    OrdersOfFly(cfg, x);
    TraceIsGrammatical(cfg, x.start, x.ticks);
    var f := Run(cfg, x.start, x.ticks);
    var v := f.status.how;
    var body :| Finished(f.trace, v, body);
    StartupIs();
    Regrouped(STARTUP, REQUESTS, f.trace, body, Closing(v), [Land]);
    assert CompleteOrders(Orders(Fly(cfg, x).0), v, body);
  }

  lemma StartupIs()
    ensures STARTUP[..3] == STARTUP
    ensures STARTUP + REQUESTS
         == [SetMode(GUIDED), Arm, Takeoff(4.5), RequestInterval(1), RequestInterval(24), RequestInterval(193)]
  {
  }

  lemma Regrouped(a: seq<Command>, b: seq<Command>, trace: seq<Command>, body: seq<Command>, c: seq<Command>,
                  l: seq<Command>)
    requires trace == body + c
    ensures a + (b + trace + l) == (a + b) + body + c + l
  {
  }

  /** LAND is sent in exactly the missions that got past start-up and ended. */
  lemma LandExactly(cfg: Config, x: Inputs)
    ensures Land in Orders(Fly(cfg, x).0) <==> Fly(cfg, x).1.Landed?
  {
    hide Run, Fly, Orders, Grammatical, WaitResult;
    OrdersOfFly(cfg, x);
    var f := Run(cfg, x.start, x.ticks);
    TraceIsGrammatical(cfg, x.start, x.ticks);
    if f.status.Flying? {
      GrammaticalHas(f.trace);
    } else {
      assert (REQUESTS + f.trace + [Land])[|REQUESTS + f.trace|] == Land;
    }
  }

  /** A mission aborts with the vehicle told to take off -- and then sends nothing more, in
      particular no LAND -- exactly when the first two waits meet the heartbeat they wait for
      and the climb meets a round that is in time but too long after the last heartbeat. */
  lemma AbortedAloft(cfg: Config, x: Inputs)
    ensures var gap := cfg.health.maxHeartbeatGap;
            Fly(cfg, x).1.Aborted? && Takeoff(4.5) in Orders(Fly(cfg, x).0) <==>
            EndsIn(x.guided, Limits(5.0, gap, GuidedMode), Ready) && EndsIn(x.armed, Limits(5.0, gap, ArmedVehicle), Ready)
            && EndsIn(x.climb, Limits(10.0, gap, Nothing), Lost)
    ensures Fly(cfg, x).1.Aborted? ==> Orders(Fly(cfg, x).0) <= STARTUP
  {
    hide Run, Orders, WaitResult, Exchange, EndsIn;
    OrdersOfFly(cfg, x);
    WaitKeepsItsLaw(x.climb, ForClimb(cfg));
    OutcomeExactly(x.guided, ForMode(cfg), Ready);
    OutcomeExactly(x.armed, ForArming(cfg), Ready);
    OutcomeExactly(x.climb, ForClimb(cfg), Lost);
    StartupPrefixes();
    assert STARTUP[2] == Takeoff(TAKEOFF_ALTITUDE);
  }

  /** How many rounds of 0.2 s, the longest a round waits, fit into a gap. */
  function RoundsIn(gap: real): (n: nat)
    requires gap >= 0.0
    ensures n as real / 5.0 <= gap < (n + 1) as real / 5.0
  {
    (gap * 5.0).Floor
  }

  /** Heartbeats in GUIDED and then armed, and in the climb only silent rounds, 0.2 s apart,
      until the heartbeat limit is passed. */
  function SilentClimb(cfg: Config): Inputs
    requires cfg.health.maxHeartbeatGap >= 0.0
  {
    Inputs(Wait(0.0, [Poll(0.0, Some(Beat(GUIDED_MODE, false)))]), Wait(0.0, [Poll(0.0, Some(Beat(GUIDED_MODE, true)))]),
           Wait(0.0, Silence(RoundsIn(cfg.health.maxHeartbeatGap) + 2)), 0.0, [])
  }

  function Silence(n: nat): (polls: seq<Poll>)
    ensures |polls| == n && forall k :: 0 <= k < n ==> polls[k] == Poll(k as real / 5.0, None)
  {
    seq(n, k requires 0 <= k < n => Poll(k as real / 5.0, None))
  }

  lemma {:induction false} NoBeat(n: nat, k: nat)
    requires k <= n
    ensures LastBeat(Wait(0.0, Silence(n)), k) == 0.0
    decreases k
  {
    if k > 0 {
      NoBeat(n, k - 1);
    }
  }

  lemma SilenceIsLost(cfg: Config)
    requires 0.0 <= cfg.health.maxHeartbeatGap < 9.8
    ensures EndsAtRound(SilentClimb(cfg).climb, ForClimb(cfg), RoundsIn(cfg.health.maxHeartbeatGap) + 1, Lost)
  {
    var w, l, last := SilentClimb(cfg).climb, ForClimb(cfg), RoundsIn(cfg.health.maxHeartbeatGap) + 1;
    hide RoundsIn;
    forall k | 0 <= k <= last
      ensures LastBeat(w, k) == 0.0
    {
      NoBeat(last + 1, k);
    }
    forall k | 0 <= k < last
      ensures Passes(w, l, k)
    {
      assert k as real <= (last - 1) as real;
    }
  }

  /** With any heartbeat limit under 9.8 seconds that can happen: the vehicle is told to take
      off and never told to land. */
  lemma TakeoffWithoutLand(cfg: Config)
    requires 0.0 <= cfg.health.maxHeartbeatGap < 9.8
    ensures var (log, end) := Fly(cfg, SilentClimb(cfg));
            end.Aborted? && Takeoff(TAKEOFF_ALTITUDE) in Orders(log) && Land !in Orders(log)
  {
    hide Fly, Orders;
    var x := SilentClimb(cfg);
    assert EndsAtRound(x.guided, ForMode(cfg), 0, Ready);
    assert EndsAtRound(x.armed, ForArming(cfg), 0, Ready);
    SilenceIsLost(cfg);
    AbortedAloft(cfg, x);
    LandExactly(cfg, x);
  }

  // ---------- What precedes TAKEOFF

  predicate SwitchAndArm(log: seq<Event>, a: nat, b: nat, c: nat, d: nat, k: nat)
    requires k <= |log|
  {
    && a < b < c < d < k
    && log[a] == Sent(SetMode(GUIDED))
    && log[b].Received? && log[b].beat.customMode == 4
    && log[c] == Sent(Arm)
    && log[d].Received? && log[d].beat.armed
  }

  lemma {:induction false} ReceiptsAreReceived(polls: seq<Poll>)
    ensures forall i :: 0 <= i < |Receipts(polls)| ==> Receipts(polls)[i].Received?
  {
    if polls != [] {
      ReceiptsAreReceived(polls[..|polls| - 1]);
    }
  }

  /** The last message of a successful wait is the heartbeat waited for. */
  lemma LastReceipt(c: Command, w: Wait, l: Limits)
    requires WaitResult(w, l).0.Ready?
    ensures var e := Exchange(c, w, l); |e| >= 2 && e[|e| - 1].Received? && IsReady(l.need, e[|e| - 1].beat)
  {
    hide WaitFrom, IsReady;
    WaitKeepsItsLaw(w, l);
    var used := WaitResult(w, l).1;
    assert w.polls[..used][..used - 1] == w.polls[..used - 1];
  }

  lemma ExchangeHasNo(c: Command, w: Wait, l: Limits, k: nat, h: real)
    requires k < |Exchange(c, w, l)| && c != Takeoff(h)
    ensures Exchange(c, w, l)[k] != Sent(Takeoff(h))
  {
    ReceiptsAreReceived(w.polls[..WaitResult(w, l).1]);
    hide Receipts, WaitResult;
  }

  lemma ExchangeStarts(c: Command, w: Wait, l: Limits)
    ensures |Exchange(c, w, l)| > 0 && Exchange(c, w, l)[0] == Sent(c)
  {
    hide Receipts, WaitResult;
  }

  /** TAKEOFF is only ever sent after a heartbeat in GUIDED was received following the mode
      request, and then an armed heartbeat following the ARM. */
  lemma TakeoffIsGuarded(cfg: Config, x: Inputs, k: nat, h: real)
    requires k < |Fly(cfg, x).0| && Fly(cfg, x).0[k] == Sent(Takeoff(h))
    ensures exists a, b, c, d :: SwitchAndArm(Fly(cfg, x).0, a, b, c, d, k)
  {
    hide Exchange, Run, WaitResult;
    var log := Fly(cfg, x).0;
    var e1 := Exchange(SetMode(GUIDED), x.guided, ForMode(cfg));
    if k < |e1| {
      ExchangeHasNo(SetMode(GUIDED), x.guided, ForMode(cfg), k, h);
    }
    LastReceipt(SetMode(GUIDED), x.guided, ForMode(cfg));
    var e2 := Exchange(Arm, x.armed, ForArming(cfg));
    if |e1| <= k < |e1| + |e2| {
      ExchangeHasNo(Arm, x.armed, ForArming(cfg), k - |e1|, h);
    }
    LastReceipt(Arm, x.armed, ForArming(cfg));
    ExchangeStarts(SetMode(GUIDED), x.guided, ForMode(cfg));
    ExchangeStarts(Arm, x.armed, ForArming(cfg));
    assert SwitchAndArm(log, 0, |e1| - 1, |e1|, |e1| + |e2| - 1, k);
  }
}
