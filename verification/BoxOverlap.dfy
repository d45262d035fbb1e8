/** What the overlap of two boxes measures: shared cells of a grid, as a share of all cells
    (YOLO_MODEL/cpp/trt_engine.cpp:135-144). */
module BoxOverlap {
  import opened Numbers
  import opened Detection

  // ---------- Counting cells

  type Cell = (int, int)

  /** The unit cells with this column and a row in the range. */
  function Column(x: int, y1: int, y2: int): set<Cell> {
    set y | y1 <= y < y2 :: (x, y)
  }

  function Rect(x1: int, y1: int, x2: int, y2: int): set<Cell> {
    set x, y | x1 <= x < x2 && y1 <= y < y2 :: (x, y)
  }

  function Length(a: int, b: int): nat {
    if a < b then b - a else 0
  }

  lemma {:induction false} ColumnSize(x: int, y1: int, y2: int)
    ensures |Column(x, y1, y2)| == Length(y1, y2)
    decreases Length(y1, y2)
  {
    if y1 < y2 {
      ColumnSize(x, y1, y2 - 1);
      assert Column(x, y1, y2) == Column(x, y1, y2 - 1) + {(x, y2 - 1)};
    } else {
      assert Column(x, y1, y2) == {};
    }
  }

  lemma {:induction false} RectSize(x1: int, y1: int, x2: int, y2: int)
    ensures |Rect(x1, y1, x2, y2)| == Length(x1, x2) * Length(y1, y2)
    decreases Length(x1, x2)
  {
    if x1 < x2 {
      RectSize(x1, y1, x2 - 1, y2);
      ColumnSize(x2 - 1, y1, y2);
      RectGrows(x1, y1, x2, y2);
      assert Length(x1, x2) == Length(x1, x2 - 1) + 1;
      OneMoreTimes(Length(x1, x2 - 1), Length(y1, y2));
    } else {
      assert Rect(x1, y1, x2, y2) == {};
    }
  }

  lemma OneMoreTimes(a: nat, b: nat)
    ensures (a + 1) * b == a * b + b
  {
  }

  lemma RectGrows(x1: int, y1: int, x2: int, y2: int)
    requires x1 < x2
    ensures |Rect(x1, y1, x2, y2)| == |Rect(x1, y1, x2 - 1, y2)| + |Column(x2 - 1, y1, y2)|
  {
    var front, last := Rect(x1, y1, x2 - 1, y2), Column(x2 - 1, y1, y2);
    assert Rect(x1, y1, x2, y2) == front + last;
    assert front !! last;
  }

  // ---------- Boxes on the grid

  /** The corners are whole numbers. */
  predicate OnGrid(b: RawBox) {
    && b.x1 == b.x1.Floor as real && b.y1 == b.y1.Floor as real
    && b.x2 == b.x2.Floor as real && b.y2 == b.y2.Floor as real
  }

  /** The unit cells inside a box. */
  function Cells(b: RawBox): set<Cell> {
    Rect(b.x1.Floor, b.y1.Floor, b.x2.Floor, b.y2.Floor)
  }

  function Larger(a: int, b: int): int { if a < b then b else a }

  function Smaller(a: int, b: int): int { if a < b then a else b }

  lemma SharedCells(a: RawBox, b: RawBox)
    ensures Cells(a) * Cells(b)
         == Rect(Larger(a.x1.Floor, b.x1.Floor), Larger(a.y1.Floor, b.y1.Floor),
                 Smaller(a.x2.Floor, b.x2.Floor), Smaller(a.y2.Floor, b.y2.Floor))
  {
  }

  lemma ProductAsReal(a: nat, b: nat)
    ensures (a * b) as real == a as real * b as real
  {
  }

  lemma AreaCountsCells(a: RawBox)
    requires OnGrid(a)
    ensures Area(a) == |Cells(a)| as real
  {
    hide Rect;
    RectSize(a.x1.Floor, a.y1.Floor, a.x2.Floor, a.y2.Floor);
    ProductAsReal(Length(a.x1.Floor, a.x2.Floor), Length(a.y1.Floor, a.y2.Floor));
    assert Max(0.0, a.x2 - a.x1) == Length(a.x1.Floor, a.x2.Floor) as real;
    assert Max(0.0, a.y2 - a.y1) == Length(a.y1.Floor, a.y2.Floor) as real;
  }

  lemma InterCountsCells(a: RawBox, b: RawBox)
    requires OnGrid(a) && OnGrid(b)
    ensures Inter(a, b) == |Cells(a) * Cells(b)| as real
  {
    hide Rect;
    SharedCells(a, b);
    var x1, y1 := Larger(a.x1.Floor, b.x1.Floor), Larger(a.y1.Floor, b.y1.Floor);
    var x2, y2 := Smaller(a.x2.Floor, b.x2.Floor), Smaller(a.y2.Floor, b.y2.Floor);
    RectSize(x1, y1, x2, y2);
    ProductAsReal(Length(x1, x2), Length(y1, y2));
    assert Max(0.0, Min(a.x2, b.x2) - Max(a.x1, b.x1)) == Length(x1, x2) as real;
    assert Max(0.0, Min(a.y2, b.y2) - Max(a.y1, b.y1)) == Length(y1, y2) as real;
  }

  /** MAIN: the overlap of two boxes with whole-number corners is the number of unit cells in
      both as a share of the number in either, and 0 when there is none in either. */
  lemma OverlapCountsCells(a: RawBox, b: RawBox)
    requires OnGrid(a) && OnGrid(b)
    ensures var both, either := |Cells(a) * Cells(b)|, |Cells(a) + Cells(b)|;
            if either == 0 then Iou(a, b) == 0.0 else Iou(a, b) * either as real == both as real
  {
    hide Cells, Inter, Area;
    AreaCountsCells(a);
    AreaCountsCells(b);
    InterCountsCells(a, b);
    assert |Cells(a) + Cells(b)| == |Cells(a)| + |Cells(b)| - |Cells(a) * Cells(b)|;
    var union := Area(a) + Area(b) - Inter(a, b);
    if union > 0.0 {
      ShareTimes(Inter(a, b), union);
    }
  }

  lemma ShareTimes(a: real, b: real)
    requires b > 0.0
    ensures a / b * b == a
  {
  }

  // ---------- Any corners

  function Times(a: real, k: real): real { a * k }

  function Scaled(b: RawBox, k: real): RawBox {
    b.(x1 := Times(b.x1, k), y1 := Times(b.y1, k), x2 := Times(b.x2, k), y2 := Times(b.y2, k))
  }

  lemma TwiceScaled(x: real, y: real, k: real)
    ensures Times(Times(x, k), Times(y, k)) == Times(Times(x, y), Times(k, k))
  {
    assert x * k * (y * k) == x * (k * (y * k));
    assert k * (y * k) == y * (k * k);
    assert x * (y * (k * k)) == x * y * (k * k);
  }

  lemma OrderScales(a: real, b: real, k: real)
    requires k > 0.0
    ensures a < b <==> Times(a, k) < Times(b, k)
    ensures Times(b, k) - Times(a, k) == Times(b - a, k)
  {
  }

  /** The length two ranges share. */
  function Shared(a1: real, a2: real, b1: real, b2: real): real {
    Max(0.0, Min(a2, b2) - Max(a1, b1))
  }

  lemma SharedScales(a1: real, a2: real, b1: real, b2: real, k: real)
    requires k > 0.0
    ensures Shared(Times(a1, k), Times(a2, k), Times(b1, k), Times(b2, k)) == Times(Shared(a1, a2, b1, b2), k)
  {
    OrderScales(a1, b1, k);
    OrderScales(b2, a2, k);
    OrderScales(Max(a1, b1), Min(a2, b2), k);
    NoneScales(k);
    hide Times;
  }

  lemma NoneScales(k: real)
    ensures Times(0.0, k) == 0.0
  {
  }

  lemma InterIs(a: RawBox, b: RawBox)
    ensures Inter(a, b) == Times(Shared(a.x1, a.x2, b.x1, b.x2), Shared(a.y1, a.y2, b.y1, b.y2))
  {
  }

  lemma InterScales(a: RawBox, b: RawBox, k: real)
    requires k > 0.0
    ensures Inter(Scaled(a, k), Scaled(b, k)) == Times(Inter(a, b), Times(k, k))
  {
    hide Inter, Shared, Times;
    InterIs(a, b);
    InterIs(Scaled(a, k), Scaled(b, k));
    SharedScales(a.x1, a.x2, b.x1, b.x2, k);
    SharedScales(a.y1, a.y2, b.y1, b.y2, k);
    TwiceScaled(Shared(a.x1, a.x2, b.x1, b.x2), Shared(a.y1, a.y2, b.y1, b.y2), k);
  }

  lemma AreaScales(a: RawBox, k: real)
    requires k > 0.0
    ensures Area(Scaled(a, k)) == Times(Area(a), Times(k, k))
  {
    hide Inter, Area, Times;
    InterScales(a, a, k);
    SelfInter(a);
    SelfInter(Scaled(a, k));
  }

  lemma SquarePositive(k: real)
    requires k > 0.0
    ensures Times(k, k) > 0.0
  {
    OrderScales(0.0, k, k);
  }

  lemma UnionScales(a: real, b: real, c: real, m: real)
    ensures Times(a, m) + Times(b, m) - Times(c, m) == Times(a + b - c, m)
  {
  }

  lemma ShareScales(a: real, b: real, m: real)
    requires m > 0.0
    ensures b > 0.0 <==> Times(b, m) > 0.0
    ensures b > 0.0 ==> Times(a, m) / Times(b, m) == a / b
  {
    OrderScales(0.0, b, m);
    NoneScales(m);
    if b > 0.0 {
      var q := a / b;
      assert q * b == a;
      assert q * (b * m) == a * m;
    }
  }

  lemma IouIs(a: RawBox, b: RawBox)
    ensures Iou(a, b) == Share(Inter(a, b), Area(a) + Area(b) - Inter(a, b))
  {
  }

  function Share(part: real, whole: real): real {
    if whole > 0.0 then part / whole else 0.0
  }

  /** The overlap does not change when both boxes are scaled, so with OverlapCountsCells it is
      fixed for all boxes with rational corners. */
  lemma OverlapScales(a: RawBox, b: RawBox, k: real)
    requires k > 0.0
    ensures Iou(Scaled(a, k), Scaled(b, k)) == Iou(a, b)
  {
    hide Inter, Area, Scaled, Times, Iou, Share;
    AreaScales(a, k);
    AreaScales(b, k);
    InterScales(a, b, k);
    IouIs(a, b);
    IouIs(Scaled(a, k), Scaled(b, k));
    UnionScales(Area(a), Area(b), Inter(a, b), Times(k, k));
    SquarePositive(k);
    SameShare(Inter(a, b), Area(a) + Area(b) - Inter(a, b), Times(k, k));
  }

  lemma SameShare(part: real, whole: real, m: real)
    requires m > 0.0
    ensures Share(Times(part, m), Times(whole, m)) == Share(part, whole)
  {
    ShareScales(part, whole, m);
    hide Times;
  }

  /** A box of positive area inside another overlaps it by the ratio of their areas. */
  lemma NestedOverlap(inner: RawBox, outer: RawBox)
    requires outer.x1 <= inner.x1 < inner.x2 <= outer.x2 && outer.y1 <= inner.y1 < inner.y2 <= outer.y2
    ensures Area(inner) > 0.0 && Area(outer) > 0.0 && Iou(outer, inner) * Area(outer) == Area(inner)
  {
    assert Inter(outer, inner) == Area(inner);
    assert Area(inner) == (inner.x2 - inner.x1) * (inner.y2 - inner.y1) > 0.0;
    InterWithin(outer, inner);
    hide Inter, Area;
    ShareTimes(Inter(outer, inner), Area(outer));
  }

  /** Boxes without a common inner point do not overlap. */
  lemma ApartOverlap(a: RawBox, b: RawBox)
    requires a.x2 <= b.x1 || b.x2 <= a.x1 || a.y2 <= b.y1 || b.y2 <= a.y1
    ensures Iou(a, b) == 0.0
  {
    assert Inter(a, b) == 0.0;
    hide Inter, Area;
    var union := Area(a) + Area(b) - Inter(a, b);
    if union > 0.0 {
      assert 0.0 / union == 0.0;
    }
  }
}
