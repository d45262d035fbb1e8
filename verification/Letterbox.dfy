/** Fitting a frame into the network's input and mapping boxes back
    (YOLO_MODEL/cpp/trt_engine.cpp), over the reals. */
module Letterbox {
  import opened Detection
  import opened Numbers

  function Scale(w: int, h: int, targetW: int, targetH: int): real
    requires w > 0 && h > 0
  {
    Min(targetW as real / w as real, targetH as real / h as real)
  }

  function Scaled(size: int, r: real): real {
    size as real * r
  }

  /** A frame dimension after scaling, in whole pixels. */
  function Resized(size: int, r: real): int {
    Round(Scaled(size, r))
  }

  datatype Info = Info(scale: real, padX: real, padY: real)

  /** The resized image and the four borders around it. */
  datatype Layout = Layout(newW: int, newH: int, top: int, bottom: int, left: int, right: int, info: Info)

  function Letterbox(w: int, h: int, targetW: int, targetH: int): Layout
    requires w > 0 && h > 0
  {
    var r := Scale(w, h, targetW, targetH);
    var newW, newH := Resized(w, r), Resized(h, r);
    var padW, padH := (targetW - newW) as real / 2.0, (targetH - newH) as real / 2.0;
    Layout(newW, newH, Round(padH - 0.1), Round(padH + 0.1), Round(padW - 0.1), Round(padW + 0.1), Info(r, padW, padH))
  }

  /** One coordinate of scale_box_to_frame. */
  function Back(x: real, pad: real, scale: real, size: int): real
    requires scale != 0.0
  {
    Clamp((x - pad) / scale, 0.0, (size - 1) as real)
  }

  /** scale_box_to_frame */
  method ScaleBoxToFrame(b: RawBox, info: Info, frameW: int, frameH: int) returns (r: RawBox)
    requires info.scale > 0.0 && frameW > 0 && frameH > 0
    ensures r == RawBox(Back(b.x1, info.padX, info.scale, frameW), Back(b.y1, info.padY, info.scale, frameH),
                        Back(b.x2, info.padX, info.scale, frameW), Back(b.y2, info.padY, info.scale, frameH),
                        b.conf, b.cls)
    ensures 0.0 <= r.x1 <= (frameW - 1) as real && 0.0 <= r.x2 <= (frameW - 1) as real
    ensures 0.0 <= r.y1 <= (frameH - 1) as real && 0.0 <= r.y2 <= (frameH - 1) as real
  {
    r := b.(x1 := (b.x1 - info.padX) / info.scale);
    r := r.(x2 := (r.x2 - info.padX) / info.scale);
    r := r.(y1 := (r.y1 - info.padY) / info.scale);
    r := r.(y2 := (r.y2 - info.padY) / info.scale);
    r := r.(x1 := Clamp(r.x1, 0.0, (frameW - 1) as real));
    r := r.(x2 := Clamp(r.x2, 0.0, (frameW - 1) as real));
    r := r.(y1 := Clamp(r.y1, 0.0, (frameH - 1) as real));
    r := r.(y2 := Clamp(r.y2, 0.0, (frameH - 1) as real));
  }

  lemma RatioTimes(t: int, w: int, r: real)
    requires w > 0 && t > 0 && 0.0 < r <= t as real / w as real
    ensures 0.0 < w as real * r <= t as real
    ensures r == t as real / w as real ==> w as real * r == t as real
  {
    var q := t as real / w as real;
    assert q * w as real == t as real;
    assert r * w as real <= q * w as real;
  }

  lemma ScaleBounds(w: int, h: int, targetW: int, targetH: int)
    requires w > 0 && h > 0 && targetW > 0 && targetH > 0
    ensures var r := Scale(w, h, targetW, targetH);
            && 0.0 < r <= targetW as real / w as real && r <= targetH as real / h as real
            && (r == targetW as real / w as real || r == targetH as real / h as real)
  {
  }

  /** A scaled dimension fits the target, and fills it when it set the scale. */
  lemma ResizedFits(t: int, size: int, r: real)
    requires size > 0 && t > 0 && 0.0 < r <= t as real / size as real
    ensures 0 <= Resized(size, r) <= t
    ensures r == t as real / size as real ==> Resized(size, r) == t
    ensures Resized(size, r) == 0 <==> Scaled(size, r) < 0.5
  {
    hide Round;
    RatioTimes(t, size, r);
    RoundBelow(size as real * r, t);
  }

  lemma RoundBelow(x: real, t: int)
    requires 0.0 <= x <= t as real
    ensures 0 <= Round(x) <= t
    ensures x == t as real ==> Round(x) == t
    ensures Round(x) >= 1 <==> x >= 0.5
  {
  }

  /** Rounding the two halves of an integer border, nudged apart, gives them all of it. */
  lemma BordersShare(d: int)
    requires d >= 0
    ensures var pad := d as real / 2.0;
            && Round(pad - 0.1) + Round(pad + 0.1) == d
            && 0 <= Round(pad - 0.1) <= Round(pad + 0.1) <= Round(pad - 0.1) + 1
            && pad - Round(pad - 0.1) as real == (if d % 2 == 0 then 0.0 else 0.5)
  {
    var k := d / 2;
    if d % 2 == 0 {
      assert d as real / 2.0 == k as real;
    } else {
      assert d as real / 2.0 == k as real + 0.5;
    }
  }

  /** MAIN: for every positive frame and target size, the resized image and its borders fill
      the target exactly, no border is negative, opposite borders differ by at most one
      pixel, and one of the two dimensions is filled without borders. */
  lemma FillsTarget(w: int, h: int, targetW: int, targetH: int)
    requires w > 0 && h > 0 && targetW > 0 && targetH > 0
    ensures var l := Letterbox(w, h, targetW, targetH);
            && l.left + l.newW + l.right == targetW && l.top + l.newH + l.bottom == targetH
            && 0 <= l.newW <= targetW && 0 <= l.newH <= targetH
            && 0 <= l.left <= l.right <= l.left + 1 && 0 <= l.top <= l.bottom <= l.top + 1
            && (l.newW == targetW || l.newH == targetH)
            && l.info.scale > 0.0
  {
    hide Round, Scale, Resized, Scaled;
    var r := Scale(w, h, targetW, targetH);
    ScaleBounds(w, h, targetW, targetH);
    ResizedFits(targetW, w, r);
    ResizedFits(targetH, h, r);
    BordersShare(targetW - Resized(w, r));
    BordersShare(targetH - Resized(h, r));
  }

  lemma HalfPixel(size: int, t: int, other: int)
    requires size > 0 && t > 0 && other > 0
    ensures size as real * (t as real / other as real) < 0.5 <==> 2 * size * t < other
  {
    var x := size as real * (t as real / other as real);
    TimesBack(size as real, t as real, other as real);
    LessTimes(x, 0.5, other as real);
    assert x * other as real == (size * t) as real;
  }

  lemma TimesBack(a: real, t: real, o: real)
    requires o > 0.0
    ensures a * (t / o) * o == a * t
  {
    var q := t / o;
    assert q * o == t;
    assert a * q * o == a * (q * o);
  }

  lemma LessTimes(x: real, y: real, o: real)
    requires o > 0.0
    ensures x < y <==> x * o < y * o
  {
  }

  /** The dimension that sets the scale fills the target; the other one follows it. */
  lemma VanishesOne(size: int, other: int, t: int, tOther: int, r: real)
    requires size > 0 && other > 0 && t > 0 && tOther > 0
    requires 0.0 < r && r <= t as real / size as real && r <= tOther as real / other as real
    requires r == t as real / size as real || r == tOther as real / other as real
    ensures Scaled(size, r) < 0.5 <==> 2 * size * tOther < other
  {
    var whole := size as real * (tOther as real / other as real);
    HalfPixel(size, tOther, other);
    if r == tOther as real / other as real {
      assert Scaled(size, r) == whole;
    } else {
      RatioTimes(t, size, r);
      assert Scaled(size, r) == t as real;
      AtMostTimes(size as real, r, tOther as real / other as real);
      assert whole >= 1.0;
    }
  }

  lemma AtMostTimes(a: real, x: real, y: real)
    requires a > 0.0 && x <= y
    ensures a * x <= a * y
  {
  }

  /** MAIN: the resize is impossible -- a resized dimension is zero -- exactly for frames more
      than twice as tall, or as wide, in proportion as the target has pixels the other way. */
  lemma VanishesExactly(w: int, h: int, targetW: int, targetH: int)
    requires w > 0 && h > 0 && targetW > 0 && targetH > 0
    ensures var l := Letterbox(w, h, targetW, targetH);
            && (l.newW == 0 <==> 2 * w * targetH < h)
            && (l.newH == 0 <==> 2 * h * targetW < w)
  {
    hide Round, Scale, Resized, Scaled;
    var r := Scale(w, h, targetW, targetH);
    ScaleBounds(w, h, targetW, targetH);
    ResizedFits(targetW, w, r);
    ResizedFits(targetH, h, r);
    VanishesOne(w, h, targetW, targetH, r);
    VanishesOne(h, w, targetH, targetW, r);
  }

  /** A frame 1 pixel wide and 2000 tall has no width left in a 640 x 640 target. */
  lemma ThinFrameVanishes()
    ensures Letterbox(1, 2000, 640, 640).newW == 0
  {
    hide Letterbox;
    VanishesExactly(1, 2000, 640, 640);
  }

  lemma Unscale(x: real, scale: real, d: real)
    requires scale > 0.0
    ensures (x * scale + d) / scale == x + d / scale
  {
    assert (x + d / scale) * scale == x * scale + d;
  }

  lemma HalfOverScale(d: real, scale: real)
    requires scale > 0.0 && -0.5 <= d <= 0.0
    ensures -(1.0 / (2.0 * scale)) <= d / scale <= 0.0
  {
    var e := 1.0 / (2.0 * scale);
    assert e * (2.0 * scale) == 1.0;
    assert e * scale == 0.5;
    var q := d / scale;
    assert q * scale == d;
    assert q < -e ==> q * scale < -e * scale;
    assert q > 0.0 ==> q * scale > 0.0;
  }

  lemma CoordinateReturns(x: real, size: int, scale: real, border: int, pad: real, gap: real)
    requires scale > 0.0 && 0.0 <= x <= (size - 1) as real
    requires pad - border as real == gap && (gap == 0.0 || gap == 0.5)
    ensures Abs(Back(x * scale + border as real, pad, scale, size) - x) <= 1.0 / (2.0 * scale)
    ensures gap == 0.0 ==> Back(x * scale + border as real, pad, scale, size) == x
  {
    assert x * scale + border as real - pad == x * scale + (-gap);
    Unscale(x, scale, -gap);
    HalfOverScale(-gap, scale);
    if gap == 0.0 {
      assert -gap / scale == 0.0;
    }
  }

  /** Forward along one axis: scaled and moved by the left or top border. */
  function Forward(x: real, border: int, scale: real): real {
    x * scale + border as real
  }

  lemma AxisReturns(x: real, size: int, target: int, resized: int, scale: real, border: int, pad: real)
    requires scale > 0.0 && 0.0 <= x <= (size - 1) as real && target >= resized
    requires pad == (target - resized) as real / 2.0 && border == Round(pad - 0.1)
    ensures Abs(Back(Forward(x, border, scale), pad, scale, size) - x) <= 1.0 / (2.0 * scale)
    ensures (target - resized) % 2 == 0 ==> Back(Forward(x, border, scale), pad, scale, size) == x
  {
    hide Round, Back, Abs;
    BordersShare(target - resized);
    CoordinateReturns(x, size, scale, border, pad, if (target - resized) % 2 == 0 then 0.0 else 0.5);
  }

  /** MAIN: a coordinate of the frame mapped forward and back through the box mapping is off
      by at most half a network pixel, and not at all when the padding is even. */
  lemma ForwardAndBack(w: int, h: int, targetW: int, targetH: int, x: real, y: real)
    requires w > 0 && h > 0 && targetW > 0 && targetH > 0
    requires 0.0 <= x <= (w - 1) as real && 0.0 <= y <= (h - 1) as real
    ensures var l := Letterbox(w, h, targetW, targetH); var r := l.info.scale;
            r > 0.0 &&
            var x' := Back(Forward(x, l.left, r), l.info.padX, r, w);
            var y' := Back(Forward(y, l.top, r), l.info.padY, r, h);
            && Abs(x' - x) <= 1.0 / (2.0 * r) && Abs(y' - y) <= 1.0 / (2.0 * r)
            && ((targetW - l.newW) % 2 == 0 ==> x' == x)
            && ((targetH - l.newH) % 2 == 0 ==> y' == y)
  {
    hide Round, Back, Scale, Resized, Scaled, Abs, Forward;
    FillsTarget(w, h, targetW, targetH);
    var l := Letterbox(w, h, targetW, targetH);
    AxisReturns(x, w, targetW, l.newW, l.info.scale, l.left, l.info.padX);
    AxisReturns(y, h, targetH, l.newH, l.info.scale, l.top, l.info.padY);
  }

  /** Mapping back keeps the order of a box's corners. */
  lemma CornersKeepOrder(a: real, b: real, pad: real, scale: real, size: int)
    requires scale > 0.0 && a <= b && size > 0
    ensures Back(a, pad, scale, size) <= Back(b, pad, scale, size)
  {
    var p, q := (a - pad) / scale, (b - pad) / scale;
    assert p * scale == a - pad && q * scale == b - pad;
    assert q < p ==> q * scale < p * scale;
  }

  /** The scale is that of the resize: each dimension is the frame's times the scale, to the
      nearest pixel. */
  lemma ResizeFollowsScale(w: int, h: int, targetW: int, targetH: int)
    requires w > 0 && h > 0 && targetW > 0 && targetH > 0
    ensures var l := Letterbox(w, h, targetW, targetH);
            && Abs(l.newW as real - w as real * l.info.scale) <= 0.5
            && Abs(l.newH as real - h as real * l.info.scale) <= 0.5
  {
    hide Round, Scale;
    var r := Scale(w, h, targetW, targetH);
    RoundIsNearest(Scaled(w, r));
    RoundIsNearest(Scaled(h, r));
  }
}
