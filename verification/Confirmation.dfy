/** The detector's confirmation streak and its reported target
    (YOLO_MODEL/cpp/yolo_live.cpp:85-93, 409-459, 988-1005). */
module Confirmation {
  import opened Wrappers
  import opened Numbers
  import opened JsonGrammar
  import opened TargetJson
  import opened TargetBody

  const CONFIRM_FRAMES := 5
  const WIDTH := 640.0
  const HEIGHT := 480.0

  /** A detection; its class name is resolved. */
  datatype Det = Det(name: string, conf: real, x1: real, y1: real, x2: real, y2: real)

  /** The detections of one frame and the clock when they were published. */
  datatype Frame = Frame(dets: seq<Det>, now: real)

  datatype Target = Target(found: bool, confirmed: bool, t: real, name: string, conf: real, xPx: real, yPx: real,
                           detections: nat, multi: bool)

  const NO_TARGET := Target(false, false, 0.0, "", 0.0, 0.0, 0.0, 0, false)

  /** round_to */
  function RoundTo(v: real, scale: nat): real
    requires scale > 0
  {
    Round(v * scale as real) as real / scale as real
  }

  // ---------- push_capped

  /** The last n elements, or all of them. */
  function Newest<T>(s: seq<T>, n: nat): (r: seq<T>)
    ensures |r| <= n && |r| <= |s|
  {
    if |s| <= n then s else s[|s| - n..]
  }

  method PushCapped<T>(dq: seq<T>, value: T, maxlen: nat) returns (r: seq<T>)
    ensures r == Newest(dq + [value], maxlen)
  {
    r := dq + [value];
    while |r| > maxlen
      invariant |r| == |dq| + 1 || |r| >= maxlen
      invariant r == (dq + [value])[|dq| + 1 - |r|..]
    {
      r := r[1..];
    }
  }

  // ---------- The detector's step

  /** The first detection of the greatest confidence. */
  function Best(dets: seq<Det>, n: nat): (k: nat)
    requires 0 < n <= |dets|
    ensures k < n && (forall i :: 0 <= i < n ==> dets[i].conf <= dets[k].conf)
    ensures forall i :: 0 <= i < k ==> dets[i].conf < dets[k].conf
  {
    if n == 1 then 0 else var k := Best(dets, n - 1); if dets[n - 1].conf > dets[k].conf then n - 1 else k
  }

  function TopName(dets: seq<Det>): Option<string> {
    if dets == [] then None else Some(dets[Best(dets, |dets|)].name)
  }

  /** What a frame adds to the streak. */
  function Slot(dets: seq<Det>): Option<string> {
    if |dets| > 1 then None else TopName(dets)
  }

  predicate Steady(streak: seq<Option<string>>, dets: seq<Det>) {
    && |dets| <= 1 && dets != [] && |streak| == CONFIRM_FRAMES
    && forall i :: 0 <= i < |streak| ==> streak[i] == TopName(dets)
  }

  function TargetOf(f: Frame, confirmed: bool): Target {
    if f.dets == [] then Target(false, confirmed, f.now, "", 0.0, 0.0, 0.0, 0, false)
    else
      var top := f.dets[Best(f.dets, |f.dets|)];
      Target(true, confirmed, f.now, top.name, RoundTo(top.conf, 1000),
             RoundTo((top.x1 + top.x2) / 2.0 - WIDTH / 2.0, 10), RoundTo(HEIGHT / 2.0 - (top.y1 + top.y2) / 2.0, 10),
             |f.dets|, |f.dets| > 1)
  }

  class Detector {
    var streak: seq<Option<string>>
    var target: Target

    constructor ()
      ensures streak == [] && target == NO_TARGET
    {
      streak, target := [], NO_TARGET;
    }

    /** One round of the inference loop, after the model has run. */
    method Infer(f: Frame)
      modifies this
      ensures streak == Newest(old(streak) + [Slot(f.dets)], CONFIRM_FRAMES)
      ensures target == TargetOf(f, Steady(streak, f.dets))
    {
      hide Newest, RoundTo;
      var dets := f.dets;
      var multi := |dets| > 1;
      var topName: Option<string> := None;
      var t := NO_TARGET.(detections := |dets|, multi := multi);
      if dets != [] {
        var top := 0;
        for i := 0 to |dets|
          invariant 0 <= top < |dets|
          invariant i == 0 ==> top == 0
          invariant i > 0 ==> top == Best(dets, i)
        {
          if dets[i].conf > dets[top].conf {
            top := i;
          }
        }
        var name := dets[top].name;
        topName := Some(name);
        var px, py := (dets[top].x1 + dets[top].x2) / 2.0, (dets[top].y1 + dets[top].y2) / 2.0;
        t := t.(found := true, name := name, conf := RoundTo(dets[top].conf, 1000),
                xPx := RoundTo(px - WIDTH / 2.0, 10), yPx := RoundTo(HEIGHT / 2.0 - py, 10));
      }
      assert topName == TopName(dets);
      streak := PushCapped(streak, if multi then None else topName, CONFIRM_FRAMES);
      var confirmed := !multi && topName.Some? && |streak| == CONFIRM_FRAMES;
      var i := 0;
      while confirmed && i < |streak|
        invariant 0 <= i <= |streak|
        invariant confirmed ==> !multi && topName.Some? && |streak| == CONFIRM_FRAMES
        invariant confirmed ==> forall j :: 0 <= j < i ==> streak[j] == topName
        invariant !confirmed ==> !Steady(streak, dets)
      {
        confirmed := streak[i] == topName;
        i := i + 1;
      }
      target := t.(confirmed := confirmed, t := f.now);
    }
  }

  // ---------- Over all frames

  /** The streak after any sequence of frames. */
  function StreakAfter(frames: seq<Frame>): seq<Option<string>> {
    if frames == [] then []
    else Newest(StreakAfter(frames[..|frames| - 1]) + [Slot(frames[|frames| - 1].dets)], CONFIRM_FRAMES)
  }

  function TargetAfter(frames: seq<Frame>): Target {
    if frames == [] then NO_TARGET
    else TargetOf(frames[|frames| - 1], Steady(StreakAfter(frames), frames[|frames| - 1].dets))
  }

  method RunDetector(frames: seq<Frame>) returns (d: Detector)
    ensures fresh(d) && d.streak == StreakAfter(frames) && d.target == TargetAfter(frames)
  {
    hide TargetOf, Newest, Steady;
    d := new Detector();
    for i := 0 to |frames|
      invariant fresh(d)
      invariant d.streak == StreakAfter(frames[..i]) && d.target == TargetAfter(frames[..i])
    {
      assert frames[..i + 1][..i] == frames[..i];
      d.Infer(frames[i]);
    }
    assert frames[..|frames|] == frames;
  }

  /** Exactly one detection, of this class. */
  predicate Single(f: Frame, name: string) {
    |f.dets| == 1 && f.dets[0].name == name
  }

  /** The last five frames each hold exactly one detection, all of one class. */
  predicate FiveAlike(frames: seq<Frame>) {
    |frames| >= 5 && |frames[|frames| - 1].dets| == 1 &&
    forall i :: |frames| - 5 <= i < |frames| ==> Single(frames[i], frames[|frames| - 1].dets[0].name)
  }

  /** The streak holds the slots of the last five frames. */
  lemma {:induction false} StreakIsSuffix(frames: seq<Frame>)
    ensures |StreakAfter(frames)| == if |frames| < CONFIRM_FRAMES then |frames| else CONFIRM_FRAMES
    ensures forall i :: 0 <= i < |StreakAfter(frames)| ==>
              StreakAfter(frames)[i] == Slot(frames[|frames| - |StreakAfter(frames)| + i].dets)
  {
    if frames != [] {
      hide Slot;
      var shorter := frames[..|frames| - 1];
      var before, slot := StreakAfter(shorter), Slot(frames[|frames| - 1].dets);
      StreakIsSuffix(shorter);
      NewestAt(before, slot, CONFIRM_FRAMES);
      hide Newest;
      StreakGrows(frames);
      hide StreakAfter;
      var streak := StreakAfter(frames);
      forall i | 0 <= i < |streak|
        ensures streak[i] == Slot(frames[|frames| - |streak| + i].dets)
      {
        if i < |streak| - 1 {
          assert streak[i] == before[|before| + 1 - |streak| + i];
        }
      }
    }
  }

  lemma StreakGrows(frames: seq<Frame>)
    requires frames != []
    ensures StreakAfter(frames)
         == Newest(StreakAfter(frames[..|frames| - 1]) + [Slot(frames[|frames| - 1].dets)], CONFIRM_FRAMES)
  {
  }

  lemma NewestAt<T>(s: seq<T>, x: T, n: nat)
    requires n > 0
    ensures var r := Newest(s + [x], n);
            && |r| == (if |s| < n then |s| + 1 else n) && r[|r| - 1] == x
            && forall i :: 0 <= i < |r| - 1 ==> r[i] == s[|s| + 1 - |r| + i]
  {
  }

  lemma SlotIsSingle(f: Frame, name: string)
    ensures Slot(f.dets) == Some(name) <==> Single(f, name)
  {
  }

  /** A target is confirmed exactly when each of the last five frames had exactly one
      detection and all are of the same class. */
  lemma ConfirmedExactly(frames: seq<Frame>)
    ensures TargetAfter(frames).confirmed <==> FiveAlike(frames)
    ensures TargetAfter(frames).confirmed ==> TargetAfter(frames).found
  {
    if frames != [] {
      hide Slot, StreakAfter, Single;
      var last := frames[|frames| - 1];
      var streak := StreakAfter(frames);
      StreakIsSuffix(frames);
      if |last.dets| == 1 && |streak| == CONFIRM_FRAMES {
        var name := last.dets[0].name;
        forall i | |frames| - CONFIRM_FRAMES <= i < |frames|
          ensures Single(frames[i], name) <==> streak[i - (|frames| - CONFIRM_FRAMES)] == Some(name)
        {
          SlotIsSingle(frames[i], name);
        }
        forall k | 0 <= k < CONFIRM_FRAMES
          ensures streak[k] == Some(name) <==> Single(frames[k + (|frames| - CONFIRM_FRAMES)], name)
        {
        }
      }
    }
  }

  // ---------- The reported target

  lemma RoundsClose(v: real, scale: nat)
    requires scale == 10 || scale == 1000
    ensures (v - RoundTo(v, scale)) * scale as real <= 0.5 && (RoundTo(v, scale) - v) * scale as real <= 0.5
    ensures v >= 0.5 / scale as real <==> RoundTo(v, scale) > 0.0
    ensures v <= -0.5 / scale as real <==> RoundTo(v, scale) < 0.0
  {
    hide Round;
    var k := scale as real;
    RoundIsNearest(v * k);
    RoundIsNearest(-(v * k));
    RoundSign(v * k);
    var r := Round(v * k) as real;
    assert r / k * k == r;
  }

  lemma RoundSign(x: real)
    ensures Round(x) > 0 <==> x >= 0.5
    ensures Round(x) < 0 <==> x <= -0.5
  {
  }

  /** The target after a run: nothing found in a frame without detections; otherwise the first
      most confident detection's name, its confidence to 0.0005, and where its centre is: to the
      right of the image's centre positive, above it positive, to 0.05 pixels. */
  lemma TargetExactly(frames: seq<Frame>)
    requires frames != []
    ensures var f := frames[|frames| - 1]; var t := TargetAfter(frames);
            && (t.found <==> f.dets != []) && t.t == f.now && t.detections == |f.dets| && (t.multi <==> |f.dets| > 1)
            && (t.found ==> exists k: nat :: k < |f.dets| && Describes(t, f.dets, k))
  {
    hide RoundTo, Steady, StreakAfter, Best;
    var f := frames[|frames| - 1];
    if f.dets != [] {
      var k := Best(f.dets, |f.dets|);
      var top := f.dets[k];
      RoundsClose(top.conf, 1000);
      RoundsClose((top.x1 + top.x2) / 2.0 - 320.0, 10);
      RoundsClose(240.0 - (top.y1 + top.y2) / 2.0, 10);
      assert Describes(TargetAfter(frames), f.dets, k);
    }
  }

  /** Detection k is the first of the greatest confidence, and the target describes it. */
  predicate Describes(t: Target, dets: seq<Det>, k: nat)
    requires k < |dets|
  {
    var d := dets[k];
    var right, up := (d.x1 + d.x2) / 2.0 - 320.0, 240.0 - (d.y1 + d.y2) / 2.0;
    && (forall i :: 0 <= i < |dets| ==> dets[i].conf <= d.conf) && (forall i :: 0 <= i < k ==> dets[i].conf < d.conf)
    && t.name == d.name && Abs(t.conf - d.conf) <= 0.0005
    && Abs(t.xPx - right) <= 0.05 && (t.xPx > 0.0 <==> right >= 0.05) && (t.xPx < 0.0 <==> right <= -0.05)
    && Abs(t.yPx - up) <= 0.05 && (t.yPx > 0.0 <==> up >= 0.05) && (t.yPx < 0.0 <==> up <= -0.05)
  }

  // ---------- The reported age

  lemma RoundingError(v: real)
    ensures v - 0.05 <= RoundTo(v, 10) <= v + 0.05
  {
    var r := Round(v * 10.0);
    assert v * 10.0 - 0.5 <= r as real <= v * 10.0 + 0.5;
  }

  /** The age in milliseconds the body reports at time now; None is printed as null. */
  function AgeMs(t: Target, now: real): Option<real> {
    if t.t != 0.0 then Some(RoundTo((now - t.t) * 1000.0, 10)) else None
  }

  /** Every target that was ever set has a reported age, within 0.05 ms of its real age. */
  lemma AgeIsClose(t: Target, now: real)
    ensures AgeMs(t, now).Some? <==> t.t != 0.0
    ensures AgeMs(t, now).Some? ==>
              (now - t.t) * 1000.0 - 0.05 <= AgeMs(t, now).value <= (now - t.t) * 1000.0 + 0.05
  {
    hide RoundTo;
    RoundingError((now - t.t) * 1000.0);
  }

  /** The response body at time now, its numbers printed by print. */
  function Info(t: Target, now: real, show: real -> string): TargetInfo {
    TargetInfo(t.found, t.confirmed, t.name, show(t.conf), show(t.xPx), show(t.yPx), show(t.detections as real),
               t.multi, show(t.t), if AgeMs(t, now).Some? then show(AgeMs(t, now).value) else "null")
  }

  /** What a client reads from the response: every field of the target under its own key. */
  lemma ResponseReads(t: Target, now: real, show: real -> string)
    requires forall v :: Printed(show(v))
    ensures var body := TargetText(Info(t, now, show));
            && BoolOf(FindTopLevel(body, "found")) == Some(t.found)
            && BoolOf(FindTopLevel(body, "confirmed")) == Some(t.confirmed)
            && BoolOf(FindTopLevel(body, "multi")) == Some(t.multi)
            && NumberOf(FindTopLevel(body, "conf")) == WhenPrinted(t.found, show(t.conf))
            && NumberOf(FindTopLevel(body, "x_px")) == WhenPrinted(t.found, show(t.xPx))
            && NumberOf(FindTopLevel(body, "y_px")) == WhenPrinted(t.found, show(t.yPx))
            && NumberOf(FindTopLevel(body, "detections")) == WhenPrinted(true, show(t.detections as real))
            && NumberOf(FindTopLevel(body, "t")) == WhenPrinted(true, show(t.t))
            && NumberOf(FindTopLevel(body, "age_ms"))
               == WhenPrinted(t.t != 0.0, show(RoundTo((now - t.t) * 1000.0, 10)))
            && FindTopLevel(body, "name") == if t.found then Some(Print(Str(Escape(t.name)))) else None
  {
    hide FindTopLevel, TargetText, NumberOf, BoolOf, RoundTo, Print, Escape;
    ReadBack(Info(t, now, show));
  }
}
